/**
 * Completion counters (dpa_cntr.c, dpa_cntr.h).
 *
 * A counter carries two pairs of counts: the plain uint64_t fields
 * counter and err, and the atomic fields counter_atomic and err_atomic,
 * each an atomic_t around a 32-bit int (locks.h). Opening picks one of
 * two operation tables by the domain's threading level. The plain table
 * works on the plain fields. The atomic table reads and adds through the
 * atomic fields, so its counts wrap as a 32-bit int and read back
 * sign-extended to 64 bits; but its set stores into the plain field, and
 * wait, whichever table is in use, makes its final test on the plain
 * field.
 *
 * dpa_cntr.c does not compile as written (a struct where a pointer is
 * meant, a progress call with a missing argument, an atomic add with an
 * extra one); the operations follow the evident intent of each line.
 * Progress runs that happen inside read and wait are parameters.
 */
module Cntr {
  import opened Bytes
  import opened Fabric

  /** Which operation table the counter uses. */
  datatype Mode = Plain | Atomic

  /**
   * dpa_fid_cntr. counter and err are the plain fields; counterAtomic
   * and errAtomic the values inside the two atomic_t. hooked records
   * whether the inc and err_inc function pointers, through which the
   * data path counts completions, are set.
   */
  datatype Cntr = Cntr(mode: Mode, counter: nat, err: nat, counterAtomic: int, errAtomic: int, hooked: bool)

  /** Bound of a 32-bit int: values lie in [-INT_LIMIT, INT_LIMIT). */
  const INT_LIMIT: int := 0x8000_0000

  predicate IsInt(x: int)
  {
    -INT_LIMIT <= x < INT_LIMIT
  }

  /** Every field holds a value of its C type. */
  predicate Bounded(c: Cntr)
  {
    c.counter < WORD_LIMIT && c.err < WORD_LIMIT && IsInt(c.counterAtomic) && IsInt(c.errAtomic)
  }

  /** Conversion of an integer to int: two's complement wrap-around into 32 bits. */
  function Wrap32(x: int): (r: int)
    ensures IsInt(r) && (x - r) % U32_LIMIT == 0
    ensures IsInt(x) ==> r == x
  {
    (x + INT_LIMIT) % U32_LIMIT - INT_LIMIT
  }

  /** Conversion of an integer to uint64_t: reduction modulo 2^64 (sign extension for an int). */
  function ToWord(x: int): (w: nat)
    ensures w < WORD_LIMIT
    ensures 0 <= x < WORD_LIMIT ==> w == x
  {
    x % WORD_LIMIT
  }

  /** Numbers equal modulo 2^32 wrap to the same int. */
  lemma Wrap32Congruent(x: int, y: int)
    requires (x - y) % U32_LIMIT == 0
    ensures Wrap32(x) == Wrap32(y)
  {
    var k := (x - y) / U32_LIMIT;
    assert x + INT_LIMIT == (y + INT_LIMIT) + k * U32_LIMIT;
  }

  /** Reducing modulo 2^64 first does not change the wrap into 32 bits. */
  lemma Wrap32OfWord(x: int, v: int)
    ensures Wrap32(ToWord(x) + v) == Wrap32(x + v)
  {
    var q := x / WORD_LIMIT;
    assert x - ToWord(x) == q * WORD_LIMIT;
    assert q * WORD_LIMIT == (q * U32_LIMIT) * U32_LIMIT;
    Wrap32Congruent(x + v, ToWord(x) + v);
  }

  /** What a table keeps of a count x: 64 bits for the plain table, a sign-extended int for the atomic one. */
  function Cut(m: Mode, x: int): nat
  {
    if m == Plain then ToWord(x) else ToWord(Wrap32(x))
  }

  /** The table chosen for a domain threading level: plain from FI_THREAD_COMPLETION up. */
  function ModeFor(threading: Threading): (m: Mode)
    ensures m == Plain <==> threading.Level() >= ThreadCompletion.Level()
  {
    if threading.Level() >= ThreadCompletion.Level() then Plain else Atomic
  }

  /** Levels below FI_THREAD_COMPLETION leave completions unserialised and get the atomic table. */
  lemma AtomicBelowCompletion()
    ensures forall t: Threading :: ModeFor(t) == Atomic <==> t in {ThreadUnspec, ThreadSafe, ThreadFid, ThreadDomain}
  {
  }

  /**
   * What dpa_cntr_open as written leaves behind. Refused: the wait
   * object was rejected. Unreturned: a counter was allocated and filled,
   * but *cntr is never stored and the function ends without a return
   * statement, so the caller gets an indeterminate status and no counter.
   */
  datatype OpenOutcome = Refused(error: Errno) | Unreturned(built: Cntr)

  /**
   * dpa_cntr_open as written: a wait object other than none or
   * unspecified fails with EINVAL (a missing attribute is accepted);
   * otherwise the counter is built zeroed and never handed out, and its
   * inc and err_inc pointers are never set.
   */
  function OpenAsWritten(waitObj: Option<WaitObj>, threading: Threading): (res: OpenOutcome)
    ensures res.Refused? <==> waitObj.Some? && waitObj.value !in {WaitNone, WaitUnspec}
    ensures res.Refused? ==> res.error == EINVAL
    ensures res.Unreturned? ==> res.built == Cntr(ModeFor(threading), 0, 0, 0, 0, false)
  {
    if waitObj.Some? && waitObj.value != WaitNone && waitObj.value != WaitUnspec then Refused(EINVAL)
    else Unreturned(Cntr(ModeFor(threading), 0, 0, 0, 0, false))
  }

  /**
   * dpa_cntr_open, corrected: the counter is stored into *cntr, the
   * increment hooks are set, and FI_SUCCESS is returned.
   */
  function Open(waitObj: Option<WaitObj>, threading: Threading): (res: Result<Cntr>)
    ensures res.Failure? <==> OpenAsWritten(waitObj, threading).Refused?
    ensures res.Failure? ==> res.error == EINVAL
    ensures res.Success? ==> Bounded(res.value) && res.value.hooked && Read(res.value) == 0 && ReadErr(res.value) == 0
    ensures res.Success? ==> res.value.mode == ModeFor(threading)
  {
    match OpenAsWritten(waitObj, threading)
    case Refused(e) => Failure(e)
    case Unreturned(c) => Success(c.(hooked := true))
  }

  /**
   * fi_cntr_read: the success count of the counter's table (after a
   * progress run the caller performs). The atomic table returns its int
   * as a uint64_t: a negative count reads as itself plus 2^64.
   */
  function Read(c: Cntr): (n: nat)
    ensures c.mode == Atomic && IsInt(c.counterAtomic) ==>
      && n < WORD_LIMIT
      && (c.counterAtomic >= 0 ==> n == c.counterAtomic)
      && (c.counterAtomic < 0 ==> n == c.counterAtomic + WORD_LIMIT)
  {
    if c.mode == Plain then c.counter else ToWord(c.counterAtomic)
  }

  /** fi_cntr_readerr: the error count of the counter's table, sign-extended like Read's. */
  function ReadErr(c: Cntr): (n: nat)
    ensures c.mode == Atomic && IsInt(c.errAtomic) ==>
      && n < WORD_LIMIT
      && (c.errAtomic >= 0 ==> n == c.errAtomic)
      && (c.errAtomic < 0 ==> n == c.errAtomic + WORD_LIMIT)
  {
    if c.mode == Plain then c.err else ToWord(c.errAtomic)
  }

  /**
   * fi_cntr_add: the table's success field grows by value, in 64 bits
   * for the plain table and as an int for the atomic one.
   */
  function Add(c: Cntr, v: nat): (r: Cntr)
    requires v < WORD_LIMIT
    ensures r.mode == c.mode && r.hooked == c.hooked && r.err == c.err && r.errAtomic == c.errAtomic
    ensures Bounded(c) ==> Bounded(r) && Read(r) == Cut(c.mode, Read(c) + v)
  {
    if c.mode == Plain then c.(counter := (c.counter + v) % WORD_LIMIT)
    else
      Wrap32OfWord(c.counterAtomic, v);
      c.(counterAtomic := Wrap32(c.counterAtomic + v))
  }

  /** fi_cntr_set, corrected: the table's own success field takes value. */
  function Set(c: Cntr, v: nat): (r: Cntr)
    requires v < WORD_LIMIT
    ensures r.mode == c.mode && r.hooked == c.hooked && r.err == c.err && r.errAtomic == c.errAtomic
    ensures Bounded(c) ==> Bounded(r) && Read(r) == Cut(c.mode, v)
  {
    if c.mode == Plain then c.(counter := v) else c.(counterAtomic := Wrap32(v))
  }

  /**
   * fi_cntr_set as written. The atomic table's set hands the plain field
   * to atomic_set, which stores value, as an int, into its low 32 bits
   * (the layout of atomic_t with native atomics, on a little-endian
   * machine); the atomic count that reads see is untouched.
   */
  function SetAsWritten(c: Cntr, v: nat): (r: Cntr)
    requires v < WORD_LIMIT
    ensures c.mode == Plain ==> r == Set(c, v)
    ensures c.mode == Atomic ==> Read(r) == Read(c) && ReadErr(r) == ReadErr(c) && r.mode == c.mode
    ensures Bounded(c) ==> Bounded(r)
  {
    if c.mode == Plain then c.(counter := v)
    else c.(counter := c.counter - c.counter % U32_LIMIT + v % U32_LIMIT)
  }

  /** The values that survive a round trip through an int: the two ends of the uint64_t range. */
  predicate SurvivesInt(v: nat)
  {
    v < INT_LIMIT || WORD_LIMIT - INT_LIMIT <= v
  }

  /** An atomic count read back after storing v as an int. */
  lemma ReadBackInt(v: nat)
    requires v < WORD_LIMIT
    ensures ToWord(Wrap32(v)) == v <==> SurvivesInt(v)
  {
    if WORD_LIMIT - INT_LIMIT <= v {
      Wrap32Congruent(v, v - WORD_LIMIT);
    } else if INT_LIMIT <= v {
      var w := Wrap32(v);
      if w < 0 {
        assert ToWord(w) == w + WORD_LIMIT;
      }
    }
  }

  /** Whether adding v to c's count stays inside the range of the table's field. */
  predicate AddsExactly(c: Cntr, v: nat)
  {
    if c.mode == Plain then c.counter + v < WORD_LIMIT else 0 <= c.counterAtomic && c.counterAtomic + v < INT_LIMIT
  }

  /**
   * Reads see what add and set did: the value set when the table's field
   * can hold it, the sum added when it does not wrap; the error count is
   * never touched by either.
   */
  lemma AddSetRead(c: Cntr, v: nat)
    requires Bounded(c) && v < WORD_LIMIT
    ensures Read(Set(c, v)) == v <==> c.mode == Plain || SurvivesInt(v)
    ensures AddsExactly(c, v) ==> Read(Add(c, v)) == Read(c) + v
    ensures ReadErr(Add(c, v)) == ReadErr(c) && ReadErr(Set(c, v)) == ReadErr(c)
  {
    if c.mode == Atomic {
      ReadBackInt(v);
    }
  }

  /** Adding a and then b adds a + b, within the table's width. */
  lemma AddAdd(c: Cntr, a: nat, b: nat)
    requires a < WORD_LIMIT && b < WORD_LIMIT && a + b < WORD_LIMIT
    ensures Add(Add(c, a), b) == Add(c, a + b)
  {
    if c.mode == Plain {
      SumMod(c.counter, a, b);
    } else {
      Wrap32Congruent(Wrap32(c.counterAtomic + a) + b, c.counterAtomic + a + b);
    }
  }

  lemma SumMod(x: int, a: int, b: int)
    ensures ((x + a) % WORD_LIMIT + b) % WORD_LIMIT == (x + a + b) % WORD_LIMIT
  {
    var m := WORD_LIMIT;
    assert (x + a) % m + b == (x + a + b) - ((x + a) / m) * m;
  }

  /** The atomic table's count is an int: one past 2^31 - 1 reads back as 2^64 - 2^31. */
  lemma AtomicCountWraps(c: Cntr)
    requires Bounded(c) && c.mode == Atomic && Read(c) == INT_LIMIT - 1
    ensures Read(Count(c, true)) == WORD_LIMIT - INT_LIMIT
  {
    assert c.counterAtomic == INT_LIMIT - 1;
    Wrap32Congruent(INT_LIMIT, -INT_LIMIT);
  }

  /**
   * The atomic table's set is lost: a count set to a value it did not
   * hold still reads as before, where the corrected set reads the value.
   */
  lemma SetLostInAtomicTable(c: Cntr, v: nat)
    requires Bounded(c) && c.mode == Atomic && v < WORD_LIMIT && SurvivesInt(v) && Read(c) != v
    ensures Read(SetAsWritten(c, v)) != v
    ensures Read(Set(c, v)) == v
  {
    ReadBackInt(v);
  }

  /**
   * What the inc and err_inc hooks of a table do: count one successful
   * or one failed completion in the table's own fields.
   */
  function Count(c: Cntr, success: bool): (r: Cntr)
    ensures success ==> r == Add(c, 1)
    ensures !success ==> Read(r) == Read(c) && (Bounded(c) ==> Bounded(r) && ReadErr(r) == Cut(c.mode, ReadErr(c) + 1))
    ensures r.mode == c.mode && r.hooked == c.hooked
  {
    if success then Add(c, 1)
    else if c.mode == Plain then c.(err := (c.err + 1) % WORD_LIMIT)
    else
      Wrap32OfWord(c.errAtomic, 1);
      c.(errAtomic := Wrap32(c.errAtomic + 1))
  }

  /**
   * dpa_cntr_inc and dpa_cntr_err_inc: count one completion through the
   * hook. None when the hook is unset: the call goes through a NULL
   * function pointer.
   */
  function Inc(c: Cntr, success: bool): (r: Option<Cntr>)
    ensures r.None? <==> !c.hooked
    ensures r.Some? ==> r.value == Count(c, success)
  {
    if !c.hooked then None else Some(Count(c, success))
  }

  /**
   * The counter dpa_cntr_open builds would fault on the first completion
   * it counted, even if it were handed out; the corrected one counts.
   */
  lemma OpenedCounterFaults(waitObj: Option<WaitObj>, threading: Threading, success: bool)
    requires OpenAsWritten(waitObj, threading).Unreturned?
    ensures Inc(OpenAsWritten(waitObj, threading).built, success).None?
    ensures Inc(Open(waitObj, threading).value, success).Some?
  {
  }

  /**
   * One progress run inside a wait: the counter afterwards and the
   * timeout budget the progress function hands back.
   */
  datatype Tick = Tick(after: Cntr, timeout: int)

  /**
   * The loop of dpa_cntr_wait as written: while the budget is positive,
   * the count is below threshold and the error count equals errSeen, run
   * progress. Then report ETIMEDOUT when the budget is exactly 0 and the
   * plain field is below threshold, success otherwise. None when the
   * progress runs supplied are not enough for the loop to stop.
   */
  function WaitLoopAsWritten(c: Cntr, threshold: nat, timeout: int, errSeen: nat, ticks: seq<Tick>): (r: Option<(Cntr, Status)>)
    ensures timeout < 0 ==> r == Some((c, Ok))
    ensures r.None? ==> timeout > 0 && Read(c) < threshold && ReadErr(c) == errSeen
    ensures r.Some? ==> r.value.1 == Ok || r.value.1 == Err(ETIMEDOUT)
    ensures r.Some? && r.value.1 == Err(ETIMEDOUT) ==>
      && r.value.0.counter < threshold
      && ((timeout == 0 && r.value.0 == c) || exists i | 0 <= i < |ticks| :: ticks[i] == Tick(r.value.0, 0))
    decreases |ticks|
  {
    if timeout > 0 && Read(c) < threshold && ReadErr(c) == errSeen then
      if ticks == [] then None else WaitLoopAsWritten(ticks[0].after, threshold, ticks[0].timeout, errSeen, ticks[1..])
    else Some((c, if timeout == 0 && c.counter < threshold then Err(ETIMEDOUT) else Ok))
  }

  /**
   * dpa_cntr_wait as written: the error count is first kept in an int,
   * so the loop compares against its sign-extended value.
   */
  function WaitAsWritten(c: Cntr, threshold: nat, timeout: int, ticks: seq<Tick>): (r: Option<(Cntr, Status)>)
    ensures timeout < 0 ==> r == Some((c, Ok))
    ensures timeout == 0 ==> r == Some((c, if c.counter < threshold then Err(ETIMEDOUT) else Ok))
    ensures r.Some? ==> r.value.1 == Ok || r.value.1 == Err(ETIMEDOUT)
    ensures r.Some? && r.value.1 == Err(ETIMEDOUT) ==>
      && r.value.0.counter < threshold
      && ((timeout == 0 && r.value.0 == c) || exists i | 0 <= i < |ticks| :: ticks[i] == Tick(r.value.0, 0))
  {
    WaitLoopAsWritten(c, threshold, timeout, ToWord(Wrap32(ReadErr(c))), ticks)
  }

  /** A wait with a negative (infinite) timeout returns success at once, whatever the count. */
  lemma InfiniteWaitReturnsAtOnce(c: Cntr, threshold: nat, timeout: int)
    requires timeout < 0 && Read(c) < threshold
    ensures WaitAsWritten(c, threshold, timeout, []) == Some((c, Ok))
  {
  }

  /**
   * In the atomic table the final test reads the plain field, which no
   * atomic add moves: a poll of a count that has reached the threshold
   * times out, where the corrected wait succeeds.
   */
  lemma WaitTestsPlainField(c: Cntr, threshold: nat)
    requires c.mode == Atomic && c.counter < threshold <= Read(c)
    ensures WaitAsWritten(c, threshold, 0, []) == Some((c, Err(ETIMEDOUT)))
    ensures Wait(c, threshold, 0, []) == Some((c, Ok))
  {
  }

  /**
   * dpa_cntr_wait keeps the error count it starts from in an int. A plain
   * error count from 2^31 to 2^32 - 1 comes back from that int as a
   * different uint64_t, so the loop's first test sees the count changed
   * and the wait returns success at once, the threshold unreached; the
   * corrected wait keeps waiting.
   */
  lemma LargeErrorCountEndsWait(c: Cntr, threshold: nat, timeout: int, ticks: seq<Tick>)
    requires c.mode == Plain && INT_LIMIT <= c.err < U32_LIMIT && c.counter < threshold && timeout > 0
    ensures WaitAsWritten(c, threshold, timeout, ticks) == Some((c, Ok))
    ensures Wait(c, threshold, timeout, ticks) != Some((c, Ok))
  {
    assert Wrap32(c.err) == c.err - U32_LIMIT;
  }

  /** The corrected wait loop, with errSeen the error count at the start. */
  function WaitLoop(c: Cntr, threshold: nat, timeout: int, errSeen: nat, ticks: seq<Tick>): (r: Option<(Cntr, Status)>)
    ensures r.Some? && r.value.1 == Ok ==> Read(r.value.0) >= threshold || ReadErr(r.value.0) != errSeen
    ensures r.Some? && r.value.1 != Ok ==> r.value.1 == Err(ETIMEDOUT) && Read(r.value.0) < threshold
    decreases |ticks|
  {
    if Read(c) >= threshold then Some((c, Ok))
    else if timeout == 0 then Some((c, Err(ETIMEDOUT)))
    else if ReadErr(c) != errSeen then Some((c, Ok))
    else if ticks == [] then None
    else WaitLoop(ticks[0].after, threshold, if timeout < 0 then -1 else Max0(ticks[0].timeout), errSeen, ticks[1..])
  }

  /**
   * dpa_cntr_wait, corrected: a negative timeout waits without a budget,
   * the error count is kept in 64 bits, and every test reads the
   * counter's own table. Waiting stops when the count reaches threshold,
   * a finite budget runs out, or the error count moves.
   */
  function Wait(c: Cntr, threshold: nat, timeout: int, ticks: seq<Tick>): (r: Option<(Cntr, Status)>)
    ensures r.Some? && r.value.1 == Ok ==> Read(r.value.0) >= threshold || ReadErr(r.value.0) != ReadErr(c)
    ensures r.Some? && r.value.1 != Ok ==> r.value.1 == Err(ETIMEDOUT) && Read(r.value.0) < threshold
  {
    WaitLoop(c, threshold, timeout, ReadErr(c), ticks)
  }

  function Max0(x: int): nat
  {
    if x < 0 then 0 else x
  }

  /** Every counter a wait sees uses the plain table. */
  predicate AllPlain(ticks: seq<Tick>)
  {
    forall i | 0 <= i < |ticks| :: ticks[i].after.mode == Plain && ticks[i].timeout >= 0
  }

  lemma {:induction false} WaitLoopAgrees(c: Cntr, threshold: nat, timeout: int, errSeen: nat, ticks: seq<Tick>)
    requires timeout >= 0 && c.mode == Plain && AllPlain(ticks)
    ensures WaitLoop(c, threshold, timeout, errSeen, ticks) == WaitLoopAsWritten(c, threshold, timeout, errSeen, ticks)
    decreases |ticks|
  {
    if timeout > 0 && Read(c) < threshold && ReadErr(c) == errSeen && ticks != [] {
      assert ticks[0].after.mode == Plain && ticks[0].timeout >= 0;
      assert AllPlain(ticks[1..]) by {
        forall i | 0 <= i < |ticks[1..]| ensures ticks[1..][i].after.mode == Plain && ticks[1..][i].timeout >= 0 {
          assert ticks[1..][i] == ticks[i + 1];
        }
      }
      WaitLoopAgrees(ticks[0].after, threshold, ticks[0].timeout, errSeen, ticks[1..]);
    }
  }

  /**
   * On the plain table, wherever the as-written wait has a budget to
   * spend and its error count fits an int, the corrected wait agrees
   * with it.
   */
  lemma WaitAgrees(c: Cntr, threshold: nat, timeout: int, ticks: seq<Tick>)
    requires timeout >= 0 && c.mode == Plain && AllPlain(ticks) && ReadErr(c) < INT_LIMIT
    ensures Wait(c, threshold, timeout, ticks) == WaitAsWritten(c, threshold, timeout, ticks)
  {
    WaitLoopAgrees(c, threshold, timeout, ReadErr(c), ticks);
  }
}
