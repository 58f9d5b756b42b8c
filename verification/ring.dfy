/**
 * The shared-memory ring buffer that carries messages between two
 * connected endpoints (dpa_msg.c, dpa_msg.h).
 *
 * The receiver owns a buffer whose data area holds cap bytes. The sender
 * maps that area remotely and appends frames: an 8-byte size header
 * followed by the payload, wrapping at the top of the area. A zero header
 * means "no frame here yet". Both cursors run modulo 2*cap so that a full
 * ring (cursors cap apart) differs from an empty one (cursors equal). The
 * receiver clears what it consumed and publishes its cursor into a status
 * word the sender reads to compute its credit.
 *
 * The first half of the module models the code as written; the second
 * half a corrected ring whose frames may wrap anywhere (header included),
 * which rejects empty payloads and which clears whole frames. The
 * corrected ring is the one the rest of the model uses; lemmas below show
 * it agrees with the code as written wherever the code's own assumptions
 * hold, and RingHazards shows what happens where they do not.
 */
module Ring {
  import opened Bytes
  import opened Circular

  /** Bytes before a frame's payload: the size_t size field of msg_data. */
  const HDR: nat := 8

  /**
   * One direction of a connection. cap is the data capacity shared by both
   * ends (the buffer size minus the 8-byte buffer_status header); mem is
   * the data area of the receiver's buffer; write is the sender's cursor,
   * read the receiver's cursor, and published the copy of read that the
   * receiver stores into the sender's status word.
   */
  datatype Ring = Ring(cap: nat, mem: seq<byte>, write: nat, read: nat, published: nat)

  /** The shape every ring has: buffer sizes are unsigned ints, cursors run modulo 2*cap. */
  predicate Shaped(r: Ring)
  {
    && HDR < r.cap < U32_LIMIT && |r.mem| == r.cap
    && r.write < 2 * r.cap && r.read < 2 * r.cap && r.published < 2 * r.cap
  }

  // ---------------------------------------------------------------------
  // Cursors (new_offset, remote_space)

  /**
   * new_offset: the cursor after a frame of len payload bytes. The sum is
   * a size_t, so it wraps at 2^64 before the modulo is taken.
   */
  function NewOffset(prev: nat, len: nat, cap: nat): (r: nat)
    requires cap > 0
    ensures r < 2 * cap
    ensures prev + len + HDR < WORD_LIMIT ==> r == (prev + len + HDR) % (2 * cap)
  {
    Wrap(prev + len + HDR) % (2 * cap)
  }

  /** Advancing a cursor by l <= cap moves its buffer position l bytes on. */
  lemma CursorStep(prev: nat, l: nat, cap: nat)
    requires 0 < cap && prev < 2 * cap && l <= cap
    ensures prev % cap < cap
    ensures ((prev + l) % (2 * cap)) % cap == Step(prev % cap, l, cap)
  {
    if prev < cap { ModZero(prev, cap); } else { ModOnce(prev, cap); }
    var x := prev + l;
    if x < cap {
      ModZero(x, 2 * cap); ModZero(x, cap);
    } else if x < 2 * cap {
      ModZero(x, 2 * cap); ModOnce(x, cap);
    } else {
      ModOnce(x, 2 * cap); ModZero(x - 2 * cap, cap);
    }
  }

  /** The buffer position after a frame: the frame's length past the old position. */
  lemma NewOffsetStep(prev: nat, len: nat, cap: nat)
    requires 0 < cap < U32_LIMIT && prev < 2 * cap && len + HDR <= cap
    ensures prev % cap < cap
    ensures NewOffset(prev, len, cap) % cap == Step(prev % cap, HDR + len, cap)
  {
    CursorStep(prev, HDR + len, cap);
    assert prev + len + HDR == prev + (HDR + len);
  }

  /** Adding a then b to a cursor modulo 2*cap is adding a + b. */
  lemma AddMod(c: nat, a: nat, b: nat, cap: nat)
    requires 0 < cap && c < 2 * cap && a + b <= cap
    ensures ((c + a) % (2 * cap) + b) % (2 * cap) == (c + a + b) % (2 * cap)
  {
    var m := 2 * cap;
    if c + a < m {
      ModZero(c + a, m);
    } else {
      ModOnce(c + a, m);
      ModZero(c + a - m + b, m);
      ModOnce(c + a + b, m);
    }
  }

  /** size_t arithmetic: the value modulo 2^64. */
  function Wrap(x: int): (r: nat)
    ensures r < WORD_LIMIT
  {
    x % WORD_LIMIT
  }

  /** Bytes written but not yet consumed, seen from the two cursors. */
  function Pending(write: nat, read: nat, cap: nat): (d: nat)
    requires cap > 0
    ensures d < 2 * cap
  {
    (write - read) % (2 * cap)
  }

  /** remote_space: the sender's credit, from its cursor and the published read cursor. */
  function RemoteSpace(published: nat, write: nat, cap: nat): nat
  {
    var read := if published > write then Wrap(published - cap) else Wrap(published + cap);
    Wrap(read - write)
  }

  /** The credit is exactly the free part of the ring whenever at most cap bytes are pending. */
  lemma RemoteSpaceIsFree(published: nat, write: nat, cap: nat)
    requires 0 < cap < U32_LIMIT && published < 2 * cap && write < 2 * cap
    requires Pending(write, published, cap) <= cap
    ensures RemoteSpace(published, write, cap) == cap - Pending(write, published, cap)
  {
    var m := 2 * cap;
    if published > write {
      ModNeg(write - published, m);
      ModZero(published - cap, WORD_LIMIT);
      ModZero(published - cap - write, WORD_LIMIT);
    } else {
      ModZero(write - published, m);
      ModZero(published + cap, WORD_LIMIT);
      ModZero(published + cap - write, WORD_LIMIT);
    }
  }

  /** Bytes between read and read + pending count as pending. */
  lemma PendingOf(read: nat, s: nat, cap: nat)
    requires 0 < cap && read < 2 * cap && s <= cap
    ensures Pending((read + s) % (2 * cap), read, cap) == s
  {
    var m := 2 * cap;
    if read + s < m {
      ModZero(read + s, m);
      ModZero(s, m);
    } else {
      ModOnce(read + s, m);
      ModNeg(s - m, m);
    }
  }

  // ---------------------------------------------------------------------
  // The ring as written (write_msg, try_send, read_msg, try_recv)

  /** The header at cursor c lies entirely below the top of the area. */
  predicate HeaderFits(cap: nat, c: nat)
    requires cap > 0
  {
    c % cap + HDR <= cap
  }

  /**
   * write_msg: the stores it issues, in program order. The payload goes
   * just after the header position, continuing at the bottom of the area
   * once the top is reached; the size header is stored last.
   */
  function WriteStores(cap: nat, write: nat, payload: seq<byte>): (ss: seq<Store>)
    requires HDR < cap < U32_LIMIT && HeaderFits(cap, write) && |payload| + HDR <= cap
    ensures Fits(cap, ss)
    ensures |ss| >= 2 && ss[|ss| - 1] == Store(write % cap, Word(|payload|))
    ensures forall i | 0 <= i < |ss| - 1 ::
              ss[i].at + |ss[i].bytes| <= write % cap || write % cap + HDR <= ss[i].at
  {
    var pos := write % cap;
    var top := cap - pos - HDR;
    var first := Min(|payload|, top);
    [Store(pos + HDR, payload[..first])]
    + (if |payload| > top then [Store(0, payload[top..])] else [])
    + [Store(pos, Word(|payload|))]
  }

  /** How a send attempt ended. */
  datatype SendStatus = Sent | NoRoom | EmptyRejected

  datatype SendResult = SendResult(ring: Ring, status: SendStatus)

  /** The space test of try_send: the frame (size_t arithmetic) fits in the sender's credit. */
  predicate HasRoom(r: Ring, len: nat)
  {
    Wrap(len + HDR) <= RemoteSpace(r.published, r.write, r.cap)
  }

  /**
   * try_send as written. When the space test passes, write_msg needs the
   * header to fit below the top of the area and the payload to fit in the
   * area; the code does not check either and writes past the area
   * otherwise.
   */
  function TrySend(r: Ring, payload: seq<byte>): (res: SendResult)
    requires Shaped(r)
    requires HasRoom(r, |payload|) ==> HeaderFits(r.cap, r.write) && |payload| + HDR <= r.cap
    ensures res.status != EmptyRejected
    ensures res.status == Sent <==> HasRoom(r, |payload|)
    ensures res.status == NoRoom ==> res.ring == r
    ensures res.status == Sent ==> res.ring.write == NewOffset(r.write, |payload|, r.cap)
    ensures Shaped(res.ring) && res.ring.read == r.read && res.ring.published == r.published && res.ring.cap == r.cap
  {
    if !HasRoom(r, |payload|) then SendResult(r, NoRoom)
    else
      SendResult(r.(mem := Apply(r.mem, WriteStores(r.cap, r.write, payload)),
                    write := NewOffset(r.write, |payload|, r.cap)), Sent)
  }

  /** How a receive attempt ended: nothing there, or the bytes copied out and the frame's size. */
  datatype RecvOutcome = RecvAgain | Received(data: seq<byte>, msgSize: nat)

  datatype RecvResult = RecvResult(ring: Ring, outcome: RecvOutcome)

  /** The size header at the read cursor, read the way the code reads it. */
  function HeaderAt(r: Ring): nat
    requires Shaped(r) && HeaderFits(r.cap, r.read)
  {
    DecodeLE(r.mem[r.read % r.cap .. r.read % r.cap + HDR])
  }

  /** The bytes read_msg copies and clears stay inside the area. */
  predicate ReadInBounds(r: Ring, recvLen: nat)
    requires Shaped(r) && HeaderFits(r.cap, r.read)
  {
    Min(recvLen, HeaderAt(r)) + r.read % r.cap + HDR <= 2 * r.cap
  }

  /**
   * The bytes read_msg copies out of a frame whose header is at pos: n
   * bytes after the header, up to the top, then the rest from the bottom.
   */
  function CopyOut(mem: seq<byte>, pos: nat, n: nat): (v: seq<byte>)
    requires pos + HDR <= |mem| && n + pos + HDR <= 2 * |mem|
    ensures |v| == n
  {
    var copy := Min(n, |mem| - pos - HDR);
    mem[pos + HDR .. pos + HDR + copy] + (if copy < n then mem[..n - copy] else [])
  }

  /**
   * read_msg as written: copy min(recvLen, size) payload bytes, clear the
   * header and the copied bytes only, advance the cursor past the whole
   * frame and publish it.
   */
  function ReadMsg(r: Ring, recvLen: nat): (res: RecvResult)
    requires Shaped(r) && HeaderFits(r.cap, r.read) && ReadInBounds(r, recvLen)
    ensures res.outcome.Received? && res.outcome.msgSize == HeaderAt(r)
    ensures |res.outcome.data| == Min(recvLen, HeaderAt(r))
    ensures res.ring.read == res.ring.published == NewOffset(r.read, HeaderAt(r), r.cap)
    ensures res.ring.write == r.write && res.ring.cap == r.cap && |res.ring.mem| == r.cap
  {
    var pos := r.read % r.cap;
    var msgSize := HeaderAt(r);
    var top := r.cap - pos - HDR;
    var readSize := Min(recvLen, msgSize);
    var copy := Min(readSize, top);
    var data := CopyOut(r.mem, pos, readSize);
    var m1 := Put(r.mem, pos, Zeros(HDR + copy));
    var m2 := if copy < readSize then Put(m1, 0, Zeros(readSize - copy)) else m1;
    var read := NewOffset(r.read, msgSize, r.cap);
    RecvResult(r.(mem := m2, read := read, published := read), Received(data, msgSize))
  }

  /** try_recv as written: a zero header means nothing has arrived. */
  function TryRecv(r: Ring, recvLen: nat): (res: RecvResult)
    requires Shaped(r) && HeaderFits(r.cap, r.read)
    requires HeaderAt(r) != 0 ==> ReadInBounds(r, recvLen)
    ensures res.outcome.RecvAgain? <==> HeaderAt(r) == 0
    ensures res.outcome.RecvAgain? ==> res.ring == r
    ensures res.outcome.Received? ==> res.outcome.msgSize == HeaderAt(r) && |res.outcome.data| == Min(recvLen, HeaderAt(r))
    ensures res.outcome.Received? ==> res.ring.read == res.ring.published == NewOffset(r.read, HeaderAt(r), r.cap)
    ensures Shaped(res.ring) && res.ring.write == r.write && res.ring.cap == r.cap
  {
    if HeaderAt(r) == 0 then RecvResult(r, RecvAgain) else ReadMsg(r, recvLen)
  }

  // ---------------------------------------------------------------------
  // The corrected ring

  /** A frame as it sits in the ring: the size header, then the payload. */
  function Frame(p: seq<byte>): (f: seq<byte>)
    requires |p| < WORD_LIMIT
    ensures |f| == HDR + |p| && f[..HDR] == Word(|p|) && f[HDR..] == p
  {
    Word(|p|) + p
  }

  /**
   * The stores of a corrected send: the payload, then the header, each
   * continuing at the bottom of the area once the top is reached.
   */
  function FrameStores(cap: nat, write: nat, payload: seq<byte>): (ss: seq<Store>)
    requires HDR < cap < U32_LIMIT && write < 2 * cap && |payload| + HDR <= cap
    ensures Fits(cap, ss)
  {
    var pos := write % cap;
    var ps := WrappedStores(cap, Step(pos, HDR, cap), payload);
    var hs := WrappedStores(cap, pos, Word(|payload|));
    ps + hs
  }

  /** try_send, corrected: empty payloads are refused instead of writing a zero header. */
  function TrySendFixed(r: Ring, payload: seq<byte>): (res: SendResult)
    requires Shaped(r)
    ensures res.status == EmptyRejected <==> |payload| == 0
    ensures res.status == Sent <==> 0 < |payload| && HasRoom(r, |payload|) && |payload| + HDR <= r.cap
    ensures res.status != Sent ==> res.ring == r
    ensures Shaped(res.ring) && res.ring.read == r.read && res.ring.published == r.published && res.ring.cap == r.cap
  {
    if |payload| == 0 then SendResult(r, EmptyRejected)
    else if !HasRoom(r, |payload|) || |payload| + HDR > r.cap then SendResult(r, NoRoom)
    else
      SendResult(r.(mem := Apply(r.mem, FrameStores(r.cap, r.write, payload)),
                    write := NewOffset(r.write, |payload|, r.cap)), Sent)
  }

  /** The size header at the read cursor, read with wrap-around. */
  function HeaderFixed(r: Ring): nat
    requires Shaped(r)
  {
    DecodeLE(ReadWrapped(r.mem, r.read % r.cap, HDR))
  }

  /** try_recv and read_msg, corrected: the header may wrap, and the whole frame is cleared. */
  function TryRecvFixed(r: Ring, recvLen: nat): (res: RecvResult)
    requires Shaped(r)
    requires HeaderFixed(r) + HDR <= r.cap
    ensures res.outcome.RecvAgain? <==> HeaderFixed(r) == 0
    ensures res.outcome.RecvAgain? ==> res.ring == r
    ensures res.outcome.Received? ==>
      && res.outcome.msgSize == HeaderFixed(r) && |res.outcome.data| == Min(recvLen, HeaderFixed(r))
      && res.ring.read == res.ring.published == NewOffset(r.read, HeaderFixed(r), r.cap)
    ensures Shaped(res.ring) && res.ring.write == r.write && res.ring.cap == r.cap
  {
    var pos := r.read % r.cap;
    var msgSize := HeaderFixed(r);
    if msgSize == 0 then RecvResult(r, RecvAgain)
    else
      var readSize := Min(recvLen, msgSize);
      var data := ReadWrapped(r.mem, Step(pos, HDR, r.cap), readSize);
      var mem := Apply(r.mem, WrappedStores(r.cap, pos, Zeros(HDR + msgSize)));
      var read := NewOffset(r.read, msgSize, r.cap);
      RecvResult(r.(mem := mem, read := read, published := read), Received(data, msgSize))
  }

  // ---------------------------------------------------------------------
  // The ring invariant

  /** Payload sizes a ring can carry: non-empty and representable in the header. */
  predicate FrameSizes(fs: seq<seq<byte>>)
  {
    forall i | 0 <= i < |fs| :: 0 < |fs[i]| < WORD_LIMIT
  }

  /** The frames, back to back. */
  function Stream(fs: seq<seq<byte>>): seq<byte>
    requires FrameSizes(fs)
    decreases |fs|
  {
    if fs == [] then [] else Frame(fs[0]) + Stream(fs[1..])
  }

  lemma {:induction false} StreamAppend(fs: seq<seq<byte>>, p: seq<byte>)
    requires FrameSizes(fs) && 0 < |p| < WORD_LIMIT
    ensures FrameSizes(fs + [p])
    ensures Stream(fs + [p]) == Stream(fs) + Frame(p)
    decreases |fs|
  {
    if fs != [] {
      assert (fs + [p])[1..] == fs[1..] + [p];
      StreamAppend(fs[1..], p);
    }
  }

  /** The data area as the frames in flight should leave it, seen from the read cursor. */
  function Image(cap: nat, fs: seq<seq<byte>>): (v: seq<byte>)
    requires FrameSizes(fs) && |Stream(fs)| <= cap
    ensures |v| == cap
  {
    Stream(fs) + Zeros(cap - |Stream(fs)|)
  }

  /** The cursor n bytes on from cursor c; cursors run modulo 2*cap. */
  function Advance(c: nat, n: nat, cap: nat): (r: nat)
    requires c < 2 * cap && n <= cap
    ensures r == (c + n) % (2 * cap)
  {
    if c + n < 2 * cap then ModZero(c + n, 2 * cap); c + n
    else ModOnce(c + n, 2 * cap); c + n - 2 * cap
  }

  /** The buffer position a cursor stands for. */
  function Position(c: nat, cap: nat): (p: nat)
    requires c < 2 * cap
    ensures p == c % cap
  {
    if c < cap then ModZero(c, cap); c else ModOnce(c, cap); c - cap
  }

  /** Moving a cursor past one more frame of n payload bytes advances it by the frame's length. */
  lemma NewOffsetAdvances(c: nat, s: nat, n: nat, cap: nat)
    requires c < 2 * cap && cap < U32_LIMIT && s + HDR + n <= cap
    ensures NewOffset(Advance(c, s, cap), n, cap) == Advance(c, s + HDR + n, cap)
  {
    AddMod(c, s, HDR + n, cap);
  }

  /** Moving a cursor past a frame of n payload bytes, then rest bytes, advances it past both. */
  lemma AdvancePastFrame(c: nat, n: nat, rest: nat, cap: nat)
    requires c < 2 * cap && cap < U32_LIMIT && HDR + n + rest <= cap
    ensures Advance(NewOffset(c, n, cap), rest, cap) == Advance(c, HDR + n + rest, cap)
  {
    AddMod(c, HDR + n, rest, cap);
  }

  /**
   * The frames fs are in flight: the cursors are |Stream(fs)| bytes apart,
   * the reader has published its cursor, and from the read cursor on the
   * area holds the frames back to back, then zeros.
   */
  ghost predicate Valid(r: Ring, fs: seq<seq<byte>>)
  {
    && Shaped(r) && r.published == r.read
    && FrameSizes(fs) && |Stream(fs)| <= r.cap
    && r.write == Advance(r.read, |Stream(fs)|, r.cap)
    && Rot(r.mem, Position(r.read, r.cap)) == Image(r.cap, fs)
  }

  /** A freshly connected ring: zeroed area, both cursors at 0. */
  lemma EmptyRingValid(cap: nat)
    requires HDR < cap < U32_LIMIT
    ensures Valid(Ring(cap, Zeros(cap), 0, 0, 0), [])
  {
    ModZero(0, 2 * cap);
    ModZero(0, cap);
  }

  /** With fs in flight, the sender's credit is the part of the ring the frames leave free. */
  lemma CreditOfValid(r: Ring, fs: seq<seq<byte>>)
    requires Valid(r, fs)
    ensures RemoteSpace(r.published, r.write, r.cap) == r.cap - |Stream(fs)|
  {
    PendingOf(r.read, |Stream(fs)|, r.cap);
    RemoteSpaceIsFree(r.published, r.write, r.cap);
  }

  /** The corrected send's room test is "the frame fits behind the frames in flight". */
  lemma RoomOfValid(r: Ring, fs: seq<seq<byte>>, p: seq<byte>)
    requires Valid(r, fs)
    ensures (HasRoom(r, |p|) && |p| + HDR <= r.cap) <==> |Stream(fs)| + HDR + |p| <= r.cap
  {
    CreditOfValid(r, fs);
    if |p| + HDR <= r.cap {
      ModZero(|p| + HDR, WORD_LIMIT);
    }
  }

  /** Writing a frame's header over the zeros after the payload written behind the stream gives the appended image. */
  lemma ImageAppend(c: nat, fs: seq<seq<byte>>, p: seq<byte>)
    requires FrameSizes(fs) && 0 < |p| < WORD_LIMIT && |Stream(fs)| + HDR + |p| <= c
    ensures FrameSizes(fs + [p]) && |Stream(fs + [p])| <= c
    ensures Splice(Splice(Image(c, fs), |Stream(fs)| + HDR, p), |Stream(fs)|, Word(|p|)) == Image(c, fs + [p])
  {
    StreamAppend(fs, p);
    var s := |Stream(fs)|;
    var lhs := Splice(Splice(Image(c, fs), s + HDR, p), s, Word(|p|));
    var rhs := Image(c, fs + [p]);
    forall t | 0 <= t < c ensures lhs[t] == rhs[t] {
      if t < s {
        assert rhs[t] == Stream(fs + [p])[t] == Stream(fs)[t];
      } else if t < s + HDR + |p| {
        assert rhs[t] == Stream(fs + [p])[t] == Frame(p)[t - s];
      }
    }
  }

  /** The area after a corrected send, seen from the read cursor. */
  lemma SendImage(r: Ring, fs: seq<seq<byte>>, p: seq<byte>)
    requires Valid(r, fs) && 0 < |p| && |Stream(fs)| + HDR + |p| <= r.cap
    ensures FrameSizes(fs + [p]) && |Stream(fs + [p])| <= r.cap
    ensures Rot(Apply(r.mem, FrameStores(r.cap, r.write, p)), r.read % r.cap) == Image(r.cap, fs + [p])
  {
    var c := r.cap;
    var s := |Stream(fs)|;
    var pr := r.read % c;
    CursorStep(r.read, s, c);
    var pw := r.write % c;
    assert pw == Step(pr, s, c);
    StepStep(pr, s, HDR, c);
    var ps := WrappedStores(c, Step(pw, HDR, c), p);
    var hs := WrappedStores(c, pw, Word(|p|));
    ApplyConcat(r.mem, ps, hs);
    var m1 := Apply(r.mem, ps);
    RotApplyWrapped(r.mem, pr, s + HDR, p);
    RotApplyWrapped(m1, pr, s, Word(|p|));
    ImageAppend(c, fs, p);
  }

  /** A corrected send of a frame that fits keeps the ring valid, with the frame appended. */
  lemma SendValid(r: Ring, fs: seq<seq<byte>>, p: seq<byte>)
    requires Valid(r, fs) && 0 < |p| && |Stream(fs)| + HDR + |p| <= r.cap
    ensures Valid(r.(mem := Apply(r.mem, FrameStores(r.cap, r.write, p)),
                     write := NewOffset(r.write, |p|, r.cap)), fs + [p])
  {
    SendImage(r, fs, p);
    StreamAppend(fs, p);
    NewOffsetAdvances(r.read, |Stream(fs)|, |p|, r.cap);
    assert |Stream(fs + [p])| == |Stream(fs)| + HDR + |p|;
    assert NewOffset(r.write, |p|, r.cap) == Advance(r.read, |Stream(fs + [p])|, r.cap);
  }

  /**
   * A send appends its payload as one more frame in flight, exactly when
   * the frame fits in the free part of the ring; otherwise nothing changes.
   */
  lemma SendAppendsFrame(r: Ring, fs: seq<seq<byte>>, p: seq<byte>)
    requires Valid(r, fs) && 0 < |p|
    ensures var res := TrySendFixed(r, p);
      && (res.status == Sent <==> |Stream(fs)| + HDR + |p| <= r.cap)
      && (res.status == Sent ==> Valid(res.ring, fs + [p]))
      && (res.status != Sent ==> res.ring == r)
  {
    RoomOfValid(r, fs, p);
    if |Stream(fs)| + HDR + |p| <= r.cap {
      SendValid(r, fs, p);
    }
  }

  /** The first bytes of the image: the oldest frame's header, or zeros when nothing is in flight. */
  lemma ImageHead(c: nat, fs: seq<seq<byte>>)
    requires FrameSizes(fs) && |Stream(fs)| <= c && HDR <= c
    ensures Image(c, fs)[..HDR] == if fs == [] then Zeros(HDR) else Word(|fs[0]|)
    ensures fs != [] ==> Stream(fs) == Frame(fs[0]) + Stream(fs[1..])
  {
    if fs != [] {
      var f := Frame(fs[0]);
      var rest := Stream(fs[1..]);
      assert Stream(fs) == f + rest;
      PrefixOfFirst(f + rest, Zeros(c - |Stream(fs)|), HDR);
      PrefixOfFirst(f, rest, HDR);
      assert Image(c, fs)[..HDR] == f[..HDR];
    }
  }

  /** The first n bytes of a + b, when a has at least n, are a's. */
  lemma PrefixOfFirst(a: seq<byte>, b: seq<byte>, n: nat)
    requires n <= |a|
    ensures (a + b)[..n] == a[..n]
  {
  }

  /** Once the oldest frame is zeroed, the image seen from the frame's end is the image of the rest. */
  lemma ImagePop(c: nat, fs: seq<seq<byte>>)
    requires FrameSizes(fs) && |Stream(fs)| <= c && fs != []
    ensures FrameSizes(fs[1..]) && |Stream(fs[1..])| <= c
    ensures HDR + |fs[0]| <= |Stream(fs)|
    ensures Image(c, fs)[HDR + |fs[0]|..] + Zeros(HDR + |fs[0]|) == Image(c, fs[1..])
  {
    assert Stream(fs) == Frame(fs[0]) + Stream(fs[1..]);
    var l := HDR + |fs[0]|;
    var lhs := Image(c, fs)[l..] + Zeros(l);
    var rhs := Image(c, fs[1..]);
    forall t | 0 <= t < c ensures lhs[t] == rhs[t] {
      if t < |Stream(fs[1..])| {
        assert lhs[t] == Stream(fs)[l + t];
      }
    }
  }

  /** The header the corrected receive reads is the first HDR bytes of the image. */
  lemma HeaderOfValid(r: Ring, fs: seq<seq<byte>>)
    requires Valid(r, fs)
    ensures ReadWrapped(r.mem, r.read % r.cap, HDR) == Image(r.cap, fs)[..HDR]
  {
    var pr := r.read % r.cap;
    CursorStep(r.read, 0, r.cap);
    RotReadWrapped(r.mem, pr, 0, HDR);
    assert Step(pr, 0, r.cap) == pr;
  }

  /** Zeroing the first l bytes of a view and turning it by l moves the zeros to the end. */
  lemma ClearFront(img: seq<byte>, l: nat)
    requires l <= |img|
    ensures Splice(img, 0, Zeros(l))[l..] + Splice(img, 0, Zeros(l))[..l] == img[l..] + Zeros(l)
  {
    var v := Splice(img, 0, Zeros(l));
    assert v[l..] == img[l..];
    assert v[..l] == Zeros(l);
  }

  /** Zeroing l bytes at pos and looking from l bytes further on: the old view turned by l, zeros last. */
  lemma ClearView(mem: seq<byte>, pos: nat, l: nat)
    requires pos < |mem| && l <= |mem|
    ensures Rot(Apply(mem, WrappedStores(|mem|, pos, Zeros(l))), Step(pos, l, |mem|)) == Rot(mem, pos)[l..] + Zeros(l)
  {
    var c := |mem|;
    var m := Apply(mem, WrappedStores(c, pos, Zeros(l)));
    assert Rot(m, pos) == Splice(Rot(mem, pos), 0, Zeros(l)) by {
      assert Step(pos, 0, c) == pos;
      RotApplyWrapped(mem, pos, 0, Zeros(l));
    }
    RotShift(m, pos, l);
    ClearFront(Rot(mem, pos), l);
  }

  /** The area after a corrected receive of the oldest frame, seen from the new read cursor. */
  lemma RecvImage(mem: seq<byte>, read: nat, fs: seq<seq<byte>>)
    requires HDR < |mem| < U32_LIMIT && read < 2 * |mem|
    requires FrameSizes(fs) && |Stream(fs)| <= |mem| && fs != []
    requires Rot(mem, read % |mem|) == Image(|mem|, fs)
    ensures HDR + |fs[0]| <= |Stream(fs)|
    ensures FrameSizes(fs[1..]) && |Stream(fs[1..])| <= |mem|
    ensures Rot(Apply(mem, WrappedStores(|mem|, read % |mem|, Zeros(HDR + |fs[0]|))), NewOffset(read, |fs[0]|, |mem|) % |mem|)
         == Image(|mem|, fs[1..])
  {
    var c := |mem|;
    var l := HDR + |fs[0]|;
    ImagePop(c, fs);
    NewOffsetStep(read, |fs[0]|, c);
    ClearView(mem, read % c, l);
  }

  /** The bytes the corrected receive copies out are the start of the oldest frame's payload. */
  lemma RecvData(r: Ring, fs: seq<seq<byte>>, n: nat)
    requires Valid(r, fs) && fs != [] && n <= |fs[0]|
    ensures HDR + n <= r.cap
    ensures ReadWrapped(r.mem, Step(r.read % r.cap, HDR, r.cap), n) == fs[0][..n]
  {
    var c := r.cap;
    var pr := r.read % c;
    var f := fs[0];
    ImageHead(c, fs);
    CursorStep(r.read, 0, c);
    RotReadWrapped(r.mem, pr, HDR, n);
    assert Image(c, fs)[..HDR + |f|] == Frame(f);
    assert Image(c, fs)[HDR..HDR + n] == Frame(f)[HDR..HDR + n];
  }

  /** A corrected receive of the oldest frame keeps the ring valid, with that frame gone. */
  lemma RecvValid(r: Ring, fs: seq<seq<byte>>)
    requires Valid(r, fs) && fs != []
    ensures HDR + |fs[0]| <= r.cap
    ensures var read := NewOffset(r.read, |fs[0]|, r.cap);
      Valid(r.(mem := Apply(r.mem, WrappedStores(r.cap, r.read % r.cap, Zeros(HDR + |fs[0]|))),
               read := read, published := read), fs[1..])
  {
    var s := |Stream(fs)|;
    var l := HDR + |fs[0]|;
    RecvImage(r.mem, r.read, fs);
    AdvancePastFrame(r.read, |fs[0]|, s - l, r.cap);
    assert |Stream(fs[1..])| == s - l by {
      assert Stream(fs) == Frame(fs[0]) + Stream(fs[1..]);
    }
  }

  /** The header the corrected receive reads names the oldest frame's size, or 0 when none is in flight. */
  lemma HeaderOfFrames(r: Ring, fs: seq<seq<byte>>)
    requires Valid(r, fs)
    ensures HeaderFixed(r) == (if fs == [] then 0 else |fs[0]|)
  {
    HeaderOfValid(r, fs);
    ImageHead(r.cap, fs);
    if fs == [] {
      DecodeZeroIff(Zeros(HDR));
    }
  }

  /**
   * A receive takes the oldest frame in flight: with none it reports
   * nothing and changes nothing; otherwise it returns the first
   * min(recvLen, size) payload bytes and the frame's full size, and the
   * remaining frames stay in flight.
   */
  lemma RecvPopsFrame(r: Ring, fs: seq<seq<byte>>, recvLen: nat)
    requires Valid(r, fs)
    ensures HeaderFixed(r) == (if fs == [] then 0 else |fs[0]|)
    ensures HeaderFixed(r) + HDR <= r.cap
    ensures var res := TryRecvFixed(r, recvLen);
      && (res.outcome.RecvAgain? <==> fs == [])
      && (fs == [] ==> res.ring == r)
      && (fs != [] ==> res.outcome == Received(fs[0][..Min(recvLen, |fs[0]|)], |fs[0]|)
                       && Valid(res.ring, fs[1..]))
  {
    HeaderOfFrames(r, fs);
    if fs != [] {
      RecvData(r, fs, Min(recvLen, |fs[0]|));
      RecvValid(r, fs);
      TryRecvFixedCopies(r, recvLen);
      TryRecvFixedClears(r, recvLen);
    }
  }

  // ---------------------------------------------------------------------
  // Agreement with the code as written

  /** A copy of nothing leaves the area as it was. */
  lemma PutEmpty(mem: seq<byte>, at: nat)
    requires at <= |mem|
    ensures Put(mem, at, []) == mem
  {
  }

  /** Below the top, write_msg issues exactly the stores of the corrected send. */
  lemma WriteStoresBelowTop(cap: nat, write: nat, p: seq<byte>)
    requires HDR < cap < U32_LIMIT && write < 2 * cap
    requires write % cap + HDR < cap && |p| + HDR <= cap
    ensures WriteStores(cap, write, p) == FrameStores(cap, write, p)
  {
    var pos := write % cap;
    assert WrappedStores(cap, pos, Word(|p|)) == [Store(pos, Word(|p|))];
    assert Step(pos, HDR, cap) == pos + HDR;
    if |p| <= cap - pos - HDR {
      assert p[..|p|] == p;
    }
  }

  /**
   * With the header ending at the top, write_msg first stores nothing at
   * the top, then the payload from the bottom and the header.
   */
  lemma WriteStoresAtTop(cap: nat, write: nat, mem: seq<byte>, p: seq<byte>)
    requires HDR < cap < U32_LIMIT && write < 2 * cap && |mem| == cap
    requires write % cap + HDR == cap && |p| + HDR <= cap
    ensures Apply(mem, WriteStores(cap, write, p)) == Apply(mem, FrameStores(cap, write, p))
  {
    var pos := write % cap;
    var w := Word(|p|);
    var tail := if |p| > 0 then [Store(0, p), Store(pos, w)] else [Store(pos, w)];
    assert WriteStores(cap, write, p) == [Store(cap, [])] + tail by {
      assert p[..0] == [] && p[0..] == p;
    }
    ApplySkipEmpty(mem, cap, tail);
    assert Step(pos, HDR, cap) == 0;
    assert WrappedStores(cap, pos, w) == [Store(pos, w)];
    if |p| > 0 {
      assert FrameStores(cap, write, p) == tail;
    } else {
      assert FrameStores(cap, write, p) == [Store(0, [])] + tail;
      ApplySkipEmpty(mem, 0, tail);
    }
  }

  /** A store of no bytes leaves the area as it is. */
  lemma ApplySkipEmpty(mem: seq<byte>, at: nat, ss: seq<Store>)
    requires at <= |mem| && Fits(|mem|, ss)
    ensures Fits(|mem|, [Store(at, [])] + ss)
    ensures Apply(mem, [Store(at, [])] + ss) == Apply(mem, ss)
  {
    assert ([Store(at, [])] + ss)[1..] == ss;
    PutEmpty(mem, at);
  }

  /** Where its header fits, write_msg leaves the area exactly as the corrected send does. */
  lemma WriteAgrees(cap: nat, write: nat, mem: seq<byte>, p: seq<byte>)
    requires HDR < cap < U32_LIMIT && write < 2 * cap && |mem| == cap
    requires HeaderFits(cap, write) && |p| + HDR <= cap
    ensures Apply(mem, WriteStores(cap, write, p)) == Apply(mem, FrameStores(cap, write, p))
  {
    if write % cap + HDR < cap {
      WriteStoresBelowTop(cap, write, p);
    } else {
      WriteStoresAtTop(cap, write, mem, p);
    }
  }

  /** Where the header fits, both readers see the same header. */
  lemma HeaderAgrees(r: Ring)
    requires Shaped(r) && HeaderFits(r.cap, r.read)
    ensures HeaderAt(r) == HeaderFixed(r)
  {
  }

  /** read_msg's two-part copy reads the same bytes as a wrapped read after the header. */
  lemma CopyAgrees(mem: seq<byte>, pos: nat, n: nat)
    requires pos + HDR <= |mem| && HDR < |mem| && 0 < n && HDR + n <= |mem|
    ensures CopyOut(mem, pos, n) == ReadWrapped(mem, Step(pos, HDR, |mem|), n)
  {
    var c := |mem|;
    var top := c - pos - HDR;
    if top > 0 {
      assert Step(pos, HDR, c) == pos + HDR;
      if n <= top {
        assert mem[..0] == [];
      } else {
        assert mem[pos + HDR .. pos + HDR + top] == mem[pos + HDR..];
      }
    } else {
      assert Step(pos, HDR, c) == 0;
      assert mem[pos + HDR .. pos + HDR] == [];
    }
  }

  /** A wrapped clear that reaches the top is a clear up to the top and one from the bottom. */
  lemma ClearTwo(mem: seq<byte>, pos: nat, n: nat, first: nat, second: nat)
    requires pos + HDR <= |mem| && HDR + n <= |mem| && pos + HDR + n > |mem|
    requires first == |mem| - pos && second == pos + HDR + n - |mem|
    ensures Apply(mem, WrappedStores(|mem|, pos, Zeros(HDR + n))) == Put(Put(mem, pos, Zeros(first)), 0, Zeros(second))
  {
    var z := Zeros(first + second);
    assert z == Zeros(HDR + n);
    ZerosSplit(first, second);
    ApplyWrappedTwo(mem, pos, z);
    assert |mem| - pos == first;
    var z1 := z[..first];
    var z2 := z[first..];
    assert z1 == Zeros(first) && z2 == Zeros(second);
    assert Apply(mem, WrappedStores(|mem|, pos, z)) == Put(Put(mem, pos, z1), 0, z2);
  }

  /** read_msg's two clears zero the same bytes as a wrapped clear of header and payload. */
  lemma ClearAgrees(mem: seq<byte>, pos: nat, n: nat)
    requires pos + HDR <= |mem| && HDR < |mem| && HDR + n <= |mem|
    ensures var top := |mem| - pos - HDR; var copy := Min(n, top);
      var m1 := Put(mem, pos, Zeros(HDR + copy));
      (if copy < n then Put(m1, 0, Zeros(n - copy)) else m1)
      == Apply(mem, WrappedStores(|mem|, pos, Zeros(HDR + n)))
  {
    if n <= |mem| - pos - HDR {
      ClearBelowTop(mem, pos, n);
    } else {
      ClearTwo(mem, pos, n, |mem| - pos, n - (|mem| - pos - HDR));
    }
  }

  /** A frame that ends below the top is cleared by one memset. */
  lemma ClearBelowTop(mem: seq<byte>, pos: nat, n: nat)
    requires pos + HDR + n <= |mem|
    ensures Put(mem, pos, Zeros(HDR + n)) == Apply(mem, WrappedStores(|mem|, pos, Zeros(HDR + n)))
  {
    ApplyWrappedOne(mem, pos, Zeros(HDR + n));
  }

  /** Where the header fits and the frame is taken whole, both receives copy out the same bytes. */
  lemma RecvOutcomeAgrees(r: Ring, recvLen: nat)
    requires Shaped(r) && HeaderFits(r.cap, r.read)
    requires 0 < HeaderAt(r) && HeaderAt(r) + HDR <= r.cap && HeaderAt(r) <= recvLen
    ensures ReadInBounds(r, recvLen)
    ensures ReadMsg(r, recvLen).outcome == TryRecvFixed(r, recvLen).outcome
  {
    HeaderAgrees(r);
    ReadMsgCopies(r, recvLen);
    TryRecvFixedCopies(r, recvLen);
  }

  /** read_msg hands back the min(recvLen, size) bytes after the header, continuing at the bottom past the top. */
  lemma ReadMsgCopies(r: Ring, recvLen: nat)
    requires Shaped(r) && HeaderFits(r.cap, r.read) && ReadInBounds(r, recvLen)
    requires 0 < recvLen && 0 < HeaderAt(r) && HeaderAt(r) + HDR <= r.cap
    ensures var n := Min(recvLen, HeaderAt(r));
      ReadMsg(r, recvLen).outcome == Received(ReadWrapped(r.mem, Step(r.read % r.cap, HDR, r.cap), n), HeaderAt(r))
  {
    CopyAgrees(r.mem, r.read % r.cap, Min(recvLen, HeaderAt(r)));
  }

  /** What read_msg leaves: header and bytes copied cleared, in at most two pieces, and the cursor moved on. */
  lemma ReadMsgClears(r: Ring, recvLen: nat)
    requires Shaped(r) && HeaderFits(r.cap, r.read) && ReadInBounds(r, recvLen)
    ensures var pos := r.read % r.cap; var n := Min(recvLen, HeaderAt(r));
      var copy := Min(n, r.cap - pos - HDR);
      var m1 := Put(r.mem, pos, Zeros(HDR + copy));
      var read := NewOffset(r.read, HeaderAt(r), r.cap);
      ReadMsg(r, recvLen).ring
      == r.(mem := if copy < n then Put(m1, 0, Zeros(n - copy)) else m1, read := read, published := read)
  {
  }

  /** What the corrected receive hands back: the bytes after the header, wrapping at the top. */
  lemma TryRecvFixedCopies(r: Ring, recvLen: nat)
    requires Shaped(r) && 0 < HeaderFixed(r) && HeaderFixed(r) + HDR <= r.cap
    ensures var pos := r.read % r.cap; var n := HeaderFixed(r);
      TryRecvFixed(r, recvLen).outcome == Received(ReadWrapped(r.mem, Step(pos, HDR, r.cap), Min(recvLen, n)), n)
  {
  }

  /** What the corrected receive leaves: the whole frame cleared, wrapping at the top, and the cursor moved on. */
  lemma TryRecvFixedClears(r: Ring, recvLen: nat)
    requires Shaped(r) && 0 < HeaderFixed(r) && HeaderFixed(r) + HDR <= r.cap
    ensures var pos := r.read % r.cap; var n := HeaderFixed(r);
      var read := NewOffset(r.read, n, r.cap);
      TryRecvFixed(r, recvLen).ring
      == r.(mem := Apply(r.mem, WrappedStores(r.cap, pos, Zeros(HDR + n))), read := read, published := read)
  {
  }

  /** Where the header fits and the frame is taken whole, both receives leave the same ring. */
  lemma RecvRingAgrees(r: Ring, recvLen: nat)
    requires Shaped(r) && HeaderFits(r.cap, r.read)
    requires 0 < HeaderAt(r) && HeaderAt(r) + HDR <= r.cap && HeaderAt(r) <= recvLen
    ensures ReadInBounds(r, recvLen)
    ensures ReadMsg(r, recvLen).ring == TryRecvFixed(r, recvLen).ring
  {
    HeaderAgrees(r);
    assert Min(recvLen, HeaderAt(r)) == HeaderAt(r);
    ClearAgrees(r.mem, r.read % r.cap, HeaderAt(r));
    ReadMsgClears(r, recvLen);
    TryRecvFixedClears(r, recvLen);
  }

  /**
   * Where the header fits and the posted buffer takes the whole frame,
   * read_msg as written behaves exactly like the corrected receive.
   */
  lemma RecvAgrees(r: Ring, recvLen: nat)
    requires Shaped(r) && HeaderFits(r.cap, r.read)
    requires HeaderAt(r) + HDR <= r.cap && HeaderAt(r) <= recvLen
    ensures ReadInBounds(r, recvLen)
    ensures TryRecv(r, recvLen) == TryRecvFixed(r, recvLen)
  {
    HeaderAgrees(r);
    if HeaderAt(r) != 0 {
      RecvOutcomeAgrees(r, recvLen);
      RecvRingAgrees(r, recvLen);
    }
  }

  /** Where the header fits and the payload is not empty, try_send as written is the corrected send. */
  lemma SendAgrees(r: Ring, p: seq<byte>)
    requires Shaped(r) && HeaderFits(r.cap, r.write) && 0 < |p| && |p| + HDR <= r.cap
    ensures TrySend(r, p) == TrySendFixed(r, p)
  {
    if HasRoom(r, |p|) {
      WriteAgrees(r.cap, r.write, r.mem, p);
    }
  }
}
