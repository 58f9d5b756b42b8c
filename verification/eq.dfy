/**
 * Event queues (dpa_eq.c, dpa_eq.h): the three lists of an event queue
 * (pending events, pending errors, free entries), adding an event, and
 * reading with and without FI_PEEK.
 *
 * Entries are numbered slots whose contents live in store; the lists
 * hold slot numbers, so an entry that ends up on two lists at once, or
 * on none, is visible in the model. Progress runs are parameters: the
 * events they add.
 *
 * The list-level operations are the corrected ones. The code as written
 * is modelled on the pointers of list.h (SLinks): Represents relates the
 * two, and the lemmas at the end say where they agree and where the code
 * as written loses entries or cuts the event list.
 */
module Eq {
  import opened Bytes
  import opened Fabric
  import Lists
  import opened SLinks

  /** The contents of a dpa_eq_event: its number, the bytes copied into the entry union, its error code. */
  datatype Stored = Stored(event: nat, entry: seq<byte>, error: int)

  /**
   * dpa_fid_eq. hasProgress: a progress function is installed. entryCap:
   * the size of the entry union, the most eq_add copies.
   */
  datatype Eq = Eq(events: seq<nat>, errors: seq<nat>, spare: seq<nat>, store: seq<Stored>,
                   hasProgress: bool, entryCap: nat)

  /** Every slot on the three lists. */
  function Slots(eq: Eq): seq<nat>
  {
    eq.events + eq.errors + eq.spare
  }

  /** Every slot in s is below n. */
  predicate Below(s: seq<nat>, n: nat)
  {
    forall i | 0 <= i < |s| :: s[i] < n
  }

  /** The slots on the three lists, counted list by list. */
  lemma SlotsSplit(eq: Eq)
    ensures multiset(Slots(eq)) == multiset(eq.events) + multiset(eq.errors) + multiset(eq.spare)
  {
  }

  /** Every listed slot has contents. */
  predicate Wf(eq: Eq)
  {
    Below(eq.events, |eq.store|) && Below(eq.errors, |eq.store|) && Below(eq.spare, |eq.store|)
  }

  /** Entry conservation: each entry is on exactly one of the three lists. */
  predicate Conserved(eq: Eq)
  {
    multiset(Slots(eq)) == multiset(Lists.Ids(|eq.store|))
  }

  /** fi_eq_attr: the number of entries to preallocate and the wait object. */
  datatype EqAttr = EqAttr(size: nat, waitObj: WaitObj)

  /**
   * dpa_eq_open: a missing attribute or a wait object other than none or
   * unspecified is ENODATA; a failed entry allocation (memOk false) is
   * ENOMEM. Otherwise size free entries, in order, and no progress
   * function.
   */
  function Open(attr: Option<EqAttr>, memOk: bool, entryCap: nat): (r: Result<Eq>)
    ensures r.Failure? <==> attr.None? || attr.value.waitObj !in {WaitNone, WaitUnspec} || (attr.value.size > 0 && !memOk)
    ensures r.Failure? && (attr.None? || attr.value.waitObj !in {WaitNone, WaitUnspec}) ==> r.error == ENODATA
    ensures r.Failure? && attr.Some? && attr.value.waitObj in {WaitNone, WaitUnspec} ==> r.error == ENOMEM
    ensures r.Success? ==> var eq := r.value;
      && eq.events == [] && eq.errors == [] && eq.spare == Lists.Ids(attr.value.size)
      && |eq.store| == attr.value.size && !eq.hasProgress && eq.entryCap == entryCap
      && Wf(eq) && Conserved(eq)
  {
    if attr.None? || (attr.value.waitObj != WaitNone && attr.value.waitObj != WaitUnspec) then Failure(ENODATA)
    else if attr.value.size > 0 && !memOk then Failure(ENOMEM)
    else
      var n := attr.value.size;
      var eq := Eq([], [], Lists.Ids(n), seq(n, _ => Stored(0, [], 0)), false, entryCap);
      assert Slots(eq) == Lists.Ids(n);
      Success(eq)
  }

  /** What eq_add leaves: the queue (None for a NULL queue), the bytes copied, whether waiters were signalled. */
  datatype Added = Added(eq: Option<Eq>, copied: nat, woken: bool)

  /** Where get_empty_event puts a new event: the slot used, the free list and the contents after. */
  datatype Taken = Taken(slot: nat, spare: seq<nat>, store: seq<Stored>)

  /**
   * get_empty_event and the stores that follow: the head of the free
   * list when there is one, else a fresh entry; only that slot's
   * contents change.
   */
  function Take(e: Eq, st: Stored): (t: Taken)
    requires Wf(e)
    ensures e.spare != [] ==> t.slot == e.spare[0] && t.spare == e.spare[1..] && |t.store| == |e.store|
    ensures e.spare == [] ==> t.slot == |e.store| && t.spare == [] && |t.store| == |e.store| + 1
    ensures t.slot < |t.store| && t.store[t.slot] == st
    ensures forall s | 0 <= s < |e.store| && s != t.slot :: t.store[s] == e.store[s]
  {
    if e.spare != [] then Taken(e.spare[0], e.spare[1..], e.store[e.spare[0] := st])
    else Taken(|e.store|, e.spare, e.store + [st])
  }

  /** Bounds survive a longer store. */
  lemma BelowGrows(s: seq<nat>, n: nat, m: nat)
    requires Below(s, n) && n <= m
    ensures Below(s, m)
  {
  }

  /**
   * eq_add: store at most entryCap bytes of buf with the event number and
   * error in the entry Take picks, and append it to the error list when
   * error is nonzero, else to the event list. Waiters are signalled only
   * when no progress function is installed. A NULL queue is left alone
   * and 0 returned.
   */
  function Add(eq: Option<Eq>, event: nat, buf: seq<byte>, error: int): (r: Added)
    requires eq.Some? ==> Wf(eq.value)
    ensures eq.None? ==> r == Added(None, 0, false)
    ensures eq.Some? ==> r.eq.Some? && var e := eq.value; var e2 := r.eq.value;
      var t := Take(e, Stored(event, buf[..Min(|buf|, e.entryCap)], error));
      && Wf(e2)
      && r.copied == Min(|buf|, e.entryCap)
      && r.woken == !e.hasProgress
      && e2.hasProgress == e.hasProgress && e2.entryCap == e.entryCap
      && e2.spare == t.spare && e2.store == t.store
      && (error != 0 ==> e2.events == e.events && e2.errors == e.errors + [t.slot])
      && (error == 0 ==> e2.errors == e.errors && e2.events == e.events + [t.slot])
  {
    if eq.None? then Added(None, 0, false)
    else
      var e := eq.value;
      var n := Min(|buf|, e.entryCap);
      var t := Take(e, Stored(event, buf[..n], error));
      BelowGrows(e.events, |e.store|, |t.store|);
      BelowGrows(e.errors, |e.store|, |t.store|);
      var e2 :=
        if error != 0 then e.(errors := Lists.SInsertTail(e.errors, t.slot), spare := t.spare, store := t.store)
        else e.(events := Lists.SInsertTail(e.events, t.slot), spare := t.spare, store := t.store);
      Added(Some(e2), n, !e.hasProgress)
  }

  /** eq_add lists the taken slot once more and the rest as before. */
  lemma AddSlots(eq: Eq, event: nat, buf: seq<byte>, error: int)
    requires Wf(eq)
    ensures var t := Take(eq, Stored(event, buf[..Min(|buf|, eq.entryCap)], error));
      multiset(Slots(Add(Some(eq), event, buf, error).eq.value))
        == multiset(eq.events) + multiset(eq.errors) + multiset(t.spare) + multiset([t.slot])
  {
    var e2 := Add(Some(eq), event, buf, error).eq.value;
    var t := Take(eq, Stored(event, buf[..Min(|buf|, eq.entryCap)], error));
    if error != 0 {
      assert Slots(e2) == eq.events + (eq.errors + [t.slot]) + t.spare;
    } else {
      assert Slots(e2) == (eq.events + [t.slot]) + eq.errors + t.spare;
    }
  }

  /** The slot Take picks, with the free list it leaves, accounts for every entry of the store it leaves. */
  lemma TakeConserves(eq: Eq, st: Stored)
    requires Wf(eq) && Conserved(eq)
    ensures var t := Take(eq, st);
      multiset(eq.events) + multiset(eq.errors) + multiset(t.spare) + multiset([t.slot]) == multiset(Lists.Ids(|t.store|))
  {
    var t := Take(eq, st);
    SlotsSplit(eq);
    if eq.spare != [] {
      assert eq.spare == [t.slot] + t.spare;
      assert multiset(eq.spare) == multiset([t.slot]) + multiset(t.spare);
    } else {
      Lists.IdsGrow(|eq.store|, 1);
      assert Lists.Desc(|eq.store|, 1) == [t.slot];
    }
  }

  /** eq_add keeps every entry on exactly one list. */
  lemma AddConserves(eq: Eq, event: nat, buf: seq<byte>, error: int)
    requires Wf(eq) && Conserved(eq)
    ensures Conserved(Add(Some(eq), event, buf, error).eq.value)
  {
    AddSlots(eq, event, buf, error);
    TakeConserves(eq, Stored(event, buf[..Min(|buf|, eq.entryCap)], error));
  }

  /** dpa_eq_write: an event written by the application always goes to the event list. */
  function Write(eq: Eq, event: nat, buf: seq<byte>): (r: Added)
    requires Wf(eq)
    ensures r.eq.Some? && r.eq.value.errors == eq.errors && |r.eq.value.events| == |eq.events| + 1
    ensures r.copied == Min(|buf|, eq.entryCap)
  {
    Add(Some(eq), event, buf, 0)
  }

  /** The list a read takes from. */
  function Queue(eq: Eq, fromErrors: bool): seq<nat>
  {
    if fromErrors then eq.errors else eq.events
  }

  function WithQueue(eq: Eq, fromErrors: bool, q: seq<nat>): Eq
  {
    if fromErrors then eq.(errors := q) else eq.(events := q)
  }

  /** What a read leaves: the queue, the return code (bytes copied), the event number, the bytes copied. */
  datatype EqRead = EqRead(eq: Eq, ret: Result<nat>, event: nat, data: seq<byte>)

  /**
   * eq_read_priv, corrected: the head entry goes back to the free list
   * when it is consumed, and a peek changes nothing.
   */
  function ReadPriv(eq: Eq, fromErrors: bool, len: nat, peek: bool): (r: EqRead)
    requires Wf(eq)
    ensures Wf(r.eq) && r.eq.store == eq.store && r.eq.hasProgress == eq.hasProgress && r.eq.entryCap == eq.entryCap
    ensures Queue(eq, fromErrors) == [] <==> r.ret == Failure(EAGAIN)
    ensures Queue(eq, fromErrors) == [] || peek ==> r.eq == eq
    ensures Queue(eq, fromErrors) != [] ==> var h := Queue(eq, fromErrors)[0]; var st := eq.store[h];
      && r.ret == Success(Min(|st.entry|, len))
      && r.data == st.entry[..Min(|st.entry|, len)] && r.event == st.event
      && (!peek ==> r.eq == WithQueue(eq, fromErrors, Queue(eq, fromErrors)[1..]).(spare := eq.spare + [h]))
    ensures Queue(r.eq, !fromErrors) == Queue(eq, !fromErrors)
  {
    var q := Queue(eq, fromErrors);
    if q == [] then EqRead(eq, Failure(EAGAIN), 0, [])
    else
      var h := q[0];
      var st := eq.store[h];
      var n := Min(|st.entry|, len);
      if peek then EqRead(eq, Success(n), st.event, st.entry[..n])
      else
        var e1 := WithQueue(eq, fromErrors, q[1..]).(spare := Lists.SInsertTail(eq.spare, h));
        EqRead(e1, Success(n), st.event, st.entry[..n])
  }

  /** The corrected read keeps every entry on exactly one list. */
  lemma ReadPrivConserves(eq: Eq, fromErrors: bool, len: nat, peek: bool)
    requires Wf(eq) && Conserved(eq)
    ensures Conserved(ReadPriv(eq, fromErrors, len, peek).eq)
  {
    var q := Queue(eq, fromErrors);
    if q != [] && !peek {
      var e2 := ReadPriv(eq, fromErrors, len, peek).eq;
      var h := q[0];
      assert q == [h] + q[1..];
      assert multiset(q) == multiset([h]) + multiset(q[1..]);
      assert multiset(e2.spare) == multiset(eq.spare) + multiset([h]);
      SlotsSplit(eq);
      SlotsSplit(e2);
    }
  }

  // ---------------------------------------------------------------------
  // Reads with progress (dpa_eq_read, dpa_eq_readerr, dpa_eq_sread)

  /** An event a progress run adds through eq_add. */
  datatype Arrival = Arrival(event: nat, buf: seq<byte>, error: int)

  /** Events added in order, as a progress run adds them. */
  function Deliver(eq: Eq, arrivals: seq<Arrival>): (r: Eq)
    requires Wf(eq)
    ensures Wf(r) && r.hasProgress == eq.hasProgress && r.entryCap == eq.entryCap
    ensures (forall i | 0 <= i < |arrivals| :: arrivals[i].error == 0) ==> r.errors == eq.errors
    ensures |eq.errors| <= |r.errors| && |eq.events| <= |r.events|
    decreases |arrivals|
  {
    if arrivals == [] then eq
    else Deliver(Add(Some(eq), arrivals[0].event, arrivals[0].buf, arrivals[0].error).eq.value, arrivals[1..])
  }

  lemma {:induction false} DeliverConserves(eq: Eq, arrivals: seq<Arrival>)
    requires Wf(eq) && Conserved(eq)
    ensures Conserved(Deliver(eq, arrivals))
    decreases |arrivals|
  {
    if arrivals != [] {
      AddConserves(eq, arrivals[0].event, arrivals[0].buf, arrivals[0].error);
      DeliverConserves(Add(Some(eq), arrivals[0].event, arrivals[0].buf, arrivals[0].error).eq.value, arrivals[1..]);
    }
  }

  /**
   * dpa_eq_readerr: one entry from the error list, at most errSize (the
   * size of fi_eq_err_entry) bytes of it; the event list is not touched.
   */
  function ReadErr(eq: Eq, errSize: nat, peek: bool): (r: EqRead)
    requires Wf(eq)
    ensures r.eq.events == eq.events
    ensures eq.errors == [] <==> r.ret == Failure(EAGAIN)
    ensures r.ret.Success? ==> eq.errors != [] && var st := eq.store[eq.errors[0]];
      r.ret.value == Min(|st.entry|, errSize) && r.data == st.entry[..r.ret.value]
  {
    ReadPriv(eq, true, errSize, peek)
  }

  /**
   * dpa_eq_sread with a timeout of at most zero (dpa_eq_read passes 0):
   * one progress run, then FI_EAVAIL if any error is pending, without
   * touching the event list; otherwise one read of the event list. When
   * it finds nothing, a second progress run (with the timeout) may add
   * events that stay queued.
   */
  function SReadOnce(eq: Eq, len: nat, timeout: int, peek: bool, soon: seq<Arrival>, later: seq<Arrival>): (r: EqRead)
    requires Wf(eq) && timeout <= 0
    ensures var e1 := Deliver(eq, soon);
      && (e1.errors != [] ==> r == EqRead(e1, Failure(EAVAIL), 0, []))
      && (e1.errors == [] && e1.events == [] ==> r.ret == Failure(EAGAIN) && r.eq == Deliver(e1, later))
      && (e1.errors == [] && e1.events != [] ==> r == ReadPriv(e1, false, len, peek))
  {
    var e1 := Deliver(eq, soon);
    if e1.errors != [] then EqRead(e1, Failure(EAVAIL), 0, [])
    else
      var r := ReadPriv(e1, false, len, peek);
      if r.ret == Failure(EAGAIN) then r.(eq := Deliver(r.eq, later)) else r
  }

  /** dpa_eq_read: sread without a timeout. */
  function Read(eq: Eq, len: nat, peek: bool, soon: seq<Arrival>, later: seq<Arrival>): (r: EqRead)
    requires Wf(eq)
    ensures r == SReadOnce(eq, len, 0, peek, soon, later)
    ensures eq.errors != [] ==> r.ret == Failure(EAVAIL)
  {
    SReadOnce(eq, len, 0, peek, soon, later)
  }

  /**
   * An event added to an idle queue is what the next read returns: its
   * number and the bytes eq_add kept, cut to the reader's length.
   */
  lemma AddThenRead(eq: Eq, event: nat, buf: seq<byte>, len: nat)
    requires Wf(eq) && eq.events == [] && eq.errors == []
    ensures var a := Write(eq, event, buf).eq.value;
      var r := Read(a, len, false, [], []);
      var n := Min(Min(|buf|, eq.entryCap), len);
      && r.ret == Success(n) && r.event == event && r.data == buf[..n]
      && r.eq.events == [] && r.eq.errors == []
  {
    var a := Write(eq, event, buf).eq.value;
    var t := Take(eq, Stored(event, buf[..Min(|buf|, eq.entryCap)], 0));
    assert a.events == [t.slot];
  }

  /**
   * dpa_eq_sread with a positive timeout, corrected: progress and a read
   * each round until an error is pending (FI_EAVAIL) or an event is read;
   * when the rounds (the timeout) run out, FI_EAGAIN.
   */
  function SRead(eq: Eq, len: nat, peek: bool, rounds: seq<seq<Arrival>>): (r: EqRead)
    requires Wf(eq)
    ensures r.ret.Failure? ==> r.ret.error in {EAVAIL, EAGAIN}
    ensures rounds == [] ==> r == EqRead(eq, Failure(EAGAIN), 0, [])
    decreases |rounds|
  {
    if rounds == [] then EqRead(eq, Failure(EAGAIN), 0, [])
    else
      var e1 := Deliver(eq, rounds[0]);
      if e1.errors != [] then EqRead(e1, Failure(EAVAIL), 0, [])
      else
        var r := ReadPriv(e1, false, len, peek);
        if r.ret.Success? then r else SRead(r.eq, len, peek, rounds[1..])
  }

  // ---------------------------------------------------------------------
  // The code as written, at the level of the list pointers

  /**
   * dpa_fid_eq with its three slists as list.h keeps them: a head and a
   * tail pointer per list and one next pointer per entry, shared by all
   * three lists. As written an entry can be linked into two lists at
   * once, and then its one next pointer serves both.
   */
  datatype Linked = Linked(events: SList, errors: SList, spare: SList, next: seq<Option<nat>>,
                           store: seq<Stored>, hasProgress: bool, entryCap: nat)

  /** Every pointer names an entry. */
  predicate LWf(l: Linked)
  {
    && |l.next| == |l.store| && Closed(l.next)
    && Points(l.next, l.events) && Points(l.next, l.errors) && Points(l.next, l.spare)
  }

  /** The pointers of l link exactly the three lists of eq, over the same entries. */
  predicate Represents(l: Linked, eq: Eq)
  {
    && l.store == eq.store && l.hasProgress == eq.hasProgress && l.entryCap == eq.entryCap
    && |l.next| == |l.store| && Closed(l.next)
    && Chain(l.next, l.events, eq.events) && Chain(l.next, l.errors, eq.errors) && Chain(l.next, l.spare, eq.spare)
  }

  lemma RepresentsWf(l: Linked, eq: Eq)
    requires Represents(l, eq)
    ensures LWf(l)
  {
    ChainPoints(l.next, l.events, eq.events);
    ChainPoints(l.next, l.errors, eq.errors);
    ChainPoints(l.next, l.spare, eq.spare);
  }

  /** The pointers dpa_eq_open leaves: entries 0 to n - 1 linked in order on the free list. */
  function OpenLinked(n: nat, entryCap: nat): Linked
  {
    Linked(Empty, Empty, if n == 0 then Empty else SList(Some(0), Some(n - 1)),
           seq(n, i requires 0 <= i < n => if i + 1 < n then Some(i + 1) else None),
           seq(n, _ => Stored(0, [], 0)), false, entryCap)
  }

  /** A freshly opened queue is consistent: its pointers link the lists Open describes. */
  lemma OpenRepresented(attr: Option<EqAttr>, memOk: bool, entryCap: nat)
    requires Open(attr, memOk, entryCap).Success?
    ensures Represents(OpenLinked(attr.value.size, entryCap), Open(attr, memOk, entryCap).value)
  {
    var n := attr.value.size;
    var l := OpenLinked(n, entryCap);
    var eq := Open(attr, memOk, entryCap).value;
    assert l.store == eq.store;
    var ids := Lists.Ids(n);
    assert eq.spare == ids && eq.events == [] && eq.errors == [];
    assert Lists.Distinct(ids) by {
      assert forall i | 0 <= i < n :: ids[i] == i;
    }
    forall i | 0 <= i && i + 1 < n
      ensures l.next[ids[i]] == Some(ids[i + 1])
    {
      assert ids[i] == i && ids[i + 1] == i + 1;
    }
    if n > 0 {
      assert ids[0] == 0 && ids[n - 1] == n - 1;
    }
  }

  /** The slist a read takes from. */
  function LQueue(l: Linked, fromErrors: bool): SList
  {
    if fromErrors then l.errors else l.events
  }

  function LWithQueue(l: Linked, fromErrors: bool, q: SList): Linked
  {
    if fromErrors then l.(errors := q) else l.(events := q)
  }

  /** No entry of a is in b. */
  predicate Apart(a: seq<nat>, b: seq<nat>)
  {
    forall i | 0 <= i < |a| :: a[i] !in b
  }

  /** Under conservation an entry is counted once over the three lists. */
  lemma ListedOnce(eq: Eq, x: nat)
    requires Conserved(eq)
    ensures multiset(eq.events)[x] + multiset(eq.errors)[x] + multiset(eq.spare)[x] <= 1
  {
    SlotsSplit(eq);
    if x < |eq.store| {
      Lists.IdsCount(|eq.store|, x);
    } else {
      assert x !in Lists.Ids(|eq.store|);
      assert multiset(Lists.Ids(|eq.store|))[x] == 0;
    }
  }

  /** Conservation keeps the three lists apart. */
  lemma ConservedApart(eq: Eq)
    requires Conserved(eq)
    ensures Apart(eq.events, eq.errors) && Apart(eq.events, eq.spare)
    ensures Apart(eq.errors, eq.events) && Apart(eq.errors, eq.spare)
    ensures Apart(eq.spare, eq.events) && Apart(eq.spare, eq.errors)
  {
    forall x: nat
      ensures multiset(eq.events)[x] + multiset(eq.errors)[x] + multiset(eq.spare)[x] <= 1
    {
      ListedOnce(eq, x);
    }
    ApartOf(eq.events, eq.errors, eq.spare);
    ApartOf(eq.errors, eq.events, eq.spare);
    ApartOf(eq.spare, eq.events, eq.errors);
  }

  /** Entries counted once over three sequences are apart. */
  lemma ApartOf(a: seq<nat>, b: seq<nat>, c: seq<nat>)
    requires forall x: nat :: multiset(a)[x] + multiset(b)[x] + multiset(c)[x] <= 1
    ensures Apart(a, b) && Apart(a, c)
  {
    forall i | 0 <= i < |a|
      ensures a[i] !in b && a[i] !in c
    {
      assert a[i] in multiset(a);
      assert multiset(b)[a[i]] == 0 && multiset(c)[a[i]] == 0;
    }
  }

  /** Where get_empty_event as written puts a new event: the entry, the free list, the next pointers and contents after. */
  datatype LTaken = LTaken(slot: nat, spare: SList, next: seq<Option<nat>>, store: seq<Stored>)

  /**
   * get_empty_event and the stores that follow, as written, on the
   * pointers: the head of the free list, or a calloc'd entry (its next
   * pointer NULL) when removing the head yields NULL. None when removing
   * the head follows a NULL pointer.
   */
  function LTake(l: Linked, st: Stored): (r: Option<LTaken>)
    requires LWf(l)
    ensures r.None? <==> l.spare.head.None? && l.spare.tail.Some?
    ensures r.Some? ==> var k := r.value;
      && |k.next| == |k.store| && Closed(k.next) && k.slot < |k.next| && k.store[k.slot] == st
      && Points(k.next, l.events) && Points(k.next, l.errors) && Points(k.next, k.spare)
  {
    match RemoveHead(l.next, l.spare)
    case None => None
    case Some((e, spare2)) =>
      if e.Some? then Some(LTaken(e.value, spare2, l.next, l.store[e.value := st]))
      else Some(LTaken(|l.store|, spare2, l.next + [None], l.store + [st]))
  }

  /**
   * eq_add as written, on the pointers: the entry LTake picks gets the
   * contents and is appended to the error list or the event list. None
   * when taking the entry follows a NULL pointer.
   */
  function LAdd(l: Linked, event: nat, buf: seq<byte>, error: int): (r: Option<Linked>)
    requires LWf(l)
    ensures r.None? <==> l.spare.head.None? && l.spare.tail.Some?
    ensures r.Some? ==> LWf(r.value) && r.value.hasProgress == l.hasProgress && r.value.entryCap == l.entryCap
    ensures r.Some? && error == 0 ==> r.value.errors == l.errors
  {
    match LTake(l, Stored(event, buf[..Min(|buf|, l.entryCap)], error))
    case None => None
    case Some(k) =>
      if error != 0 then
        var (n2, q2) := InsertTail(k.next, l.errors, k.slot);
        Some(l.(errors := q2, spare := k.spare, next := n2, store := k.store))
      else
        var (n2, q2) := InsertTail(k.next, l.events, k.slot);
        Some(l.(events := q2, spare := k.spare, next := n2, store := k.store))
  }

  /** Events added in order on the pointers; None at the first fault. */
  function LDeliver(l: Linked, arrivals: seq<Arrival>): (r: Option<Linked>)
    requires LWf(l)
    ensures r.Some? ==> LWf(r.value)
    ensures r.Some? && (forall i | 0 <= i < |arrivals| :: arrivals[i].error == 0) ==> r.value.errors == l.errors
    decreases |arrivals|
  {
    if arrivals == [] then Some(l)
    else match LAdd(l, arrivals[0].event, arrivals[0].buf, arrivals[0].error)
      case None => None
      case Some(l1) => LDeliver(l1, arrivals[1..])
  }

  /** Appending an entry on no list to one list leaves two other lists linked. */
  lemma InsertKeepsOthers(next: seq<Option<nat>>, l: SList, s: seq<nat>, item: nat,
                          m1: SList, t1: seq<nat>, m2: SList, t2: seq<nat>)
    requires Chain(next, l, s) && item < |next| && item !in s
    requires Chain(next, m1, t1) && item !in t1 && Apart(t1, s)
    requires Chain(next, m2, t2) && item !in t2 && Apart(t2, s)
    ensures Points(next, l)
    ensures var (n2, l2) := InsertTail(next, l, item);
      Chain(n2, l2, s + [item]) && Chain(n2, m1, t1) && Chain(n2, m2, t2)
  {
    InsertTailChain(next, l, s, item);
    var (n2, l2) := InsertTail(next, l, item);
    forall i | 0 <= i < |t1| ensures n2[t1[i]] == next[t1[i]] {
      assert t1[i] != item && t1[i] < |next|;
    }
    forall i | 0 <= i < |t2| ensures n2[t2[i]] == next[t2[i]] {
      assert t2[i] != item && t2[i] < |next|;
    }
    ChainFrame(next, n2, m1, t1);
    ChainFrame(next, n2, m2, t2);
  }

  /** A longer pointer array with the old pointers kept keeps every chain. */
  lemma GrowKeeps(l: Linked, eq: Eq, spare2: SList, rest: seq<nat>)
    requires Represents(l, eq) && Chain(l.next, spare2, rest)
    ensures Chain(l.next + [None], l.events, eq.events) && Chain(l.next + [None], l.errors, eq.errors)
    ensures Chain(l.next + [None], spare2, rest)
  {
    var n1 := l.next + [None];
    ChainFrame(l.next, n1, l.events, eq.events);
    ChainFrame(l.next, n1, l.errors, eq.errors);
    ChainFrame(l.next, n1, spare2, rest);
  }

  /** Appending the taken slot to either list keeps the pointers representing the lists. */
  lemma AppendAgrees(next1: seq<Option<nat>>, l: Linked, eq: Eq, t: Taken, spare2: SList, error: int)
    requires |next1| == |t.store| && Closed(next1) && t.slot < |next1|
    requires Chain(next1, l.events, eq.events) && Chain(next1, l.errors, eq.errors) && Chain(next1, spare2, t.spare)
    requires Points(next1, l.events) && Points(next1, l.errors)
    requires t.slot !in eq.events && t.slot !in eq.errors && t.slot !in t.spare
    requires Apart(eq.events, eq.errors) && Apart(eq.errors, eq.events)
    requires Apart(t.spare, eq.events) && Apart(t.spare, eq.errors)
    requires l.hasProgress == eq.hasProgress && l.entryCap == eq.entryCap
    ensures error != 0 ==> var (n2, q2) := InsertTail(next1, l.errors, t.slot);
      Represents(l.(errors := q2, spare := spare2, next := n2, store := t.store),
                 eq.(errors := eq.errors + [t.slot], spare := t.spare, store := t.store))
    ensures error == 0 ==> var (n2, q2) := InsertTail(next1, l.events, t.slot);
      Represents(l.(events := q2, spare := spare2, next := n2, store := t.store),
                 eq.(events := eq.events + [t.slot], spare := t.spare, store := t.store))
  {
    if error != 0 {
      InsertKeepsOthers(next1, l.errors, eq.errors, t.slot, l.events, eq.events, spare2, t.spare);
    } else {
      InsertKeepsOthers(next1, l.events, eq.events, t.slot, l.errors, eq.errors, spare2, t.spare);
    }
  }

  /**
   * On a consistent queue, get_empty_event as written takes the entry
   * Take takes, and the pointers still link the other lists and the rest
   * of the free list, none of which holds the entry.
   */
  lemma LTakeAgrees(l: Linked, eq: Eq, st: Stored)
    requires Represents(l, eq) && Wf(eq) && Conserved(eq)
    ensures LWf(l)
    ensures LTake(l, st).Some?
    ensures var k := LTake(l, st).value; var t := Take(eq, st);
      && k.slot == t.slot && k.store == t.store
      && Chain(k.next, l.events, eq.events) && Chain(k.next, l.errors, eq.errors) && Chain(k.next, k.spare, t.spare)
      && t.slot !in eq.events && t.slot !in eq.errors && t.slot !in t.spare
  {
    RepresentsWf(l, eq);
    ConservedApart(eq);
    RemoveHeadChain(l.next, l.spare, eq.spare);
    var (e, spare2) := RemoveHead(l.next, l.spare).value;
    var t := Take(eq, st);
    if e.Some? {
      assert eq.spare == [t.slot] + t.spare;
      assert t.slot !in eq.events && t.slot !in eq.errors && t.slot !in t.spare;
    } else {
      GrowKeeps(l, eq, spare2, t.spare);
    }
  }

  /** On a consistent queue, eq_add as written does what the list-level Add does. */
  lemma LAddAgrees(l: Linked, eq: Eq, event: nat, buf: seq<byte>, error: int)
    requires Represents(l, eq) && Wf(eq) && Conserved(eq)
    ensures LWf(l)
    ensures LAdd(l, event, buf, error).Some?
    ensures Represents(LAdd(l, event, buf, error).value, Add(Some(eq), event, buf, error).eq.value)
  {
    RepresentsWf(l, eq);
    ConservedApart(eq);
    var st := Stored(event, buf[..Min(|buf|, l.entryCap)], error);
    LTakeAgrees(l, eq, st);
    var k := LTake(l, st).value;
    var t := Take(eq, st);
    assert Apart(t.spare, eq.events) && Apart(t.spare, eq.errors) by {
      assert t.spare == [] || t.spare == eq.spare[1..];
    }
    AppendAgrees(k.next, l, eq, t, k.spare, error);
  }

  /** On a consistent queue, delivering as written does what the list-level Deliver does. */
  lemma {:induction false} LDeliverAgrees(l: Linked, eq: Eq, arrivals: seq<Arrival>)
    requires Represents(l, eq) && Wf(eq) && Conserved(eq)
    ensures LWf(l)
    ensures LDeliver(l, arrivals).Some? && Represents(LDeliver(l, arrivals).value, Deliver(eq, arrivals))
    decreases |arrivals|
  {
    RepresentsWf(l, eq);
    if arrivals != [] {
      var x := arrivals[0];
      LAddAgrees(l, eq, x.event, x.buf, x.error);
      AddConserves(eq, x.event, x.buf, x.error);
      LDeliverAgrees(LAdd(l, x.event, x.buf, x.error).value, Add(Some(eq), x.event, x.buf, x.error).eq.value, arrivals[1..]);
    }
  }

  /** What a read as written leaves: the pointers, the return code, the event number, the bytes copied. */
  datatype LRead = LRead(l: Linked, ret: Result<nat>, event: nat, data: seq<byte>)

  /**
   * eq_read_priv as written. get_head takes the head pointer for a peek
   * and slist_remove_head otherwise; a NULL entry is EAGAIN. Otherwise
   * min(entry size, len) bytes of the entry and its event number are
   * returned, and (the test inverted) a peeked entry is appended to the
   * free list, its next pointer cleared, while a consumed one is linked
   * nowhere. None when removing the head follows a NULL pointer.
   */
  function ReadPrivAsWritten(l: Linked, fromErrors: bool, len: nat, peek: bool): (r: Option<LRead>)
    requires LWf(l)
    ensures r.None? <==> !peek && LQueue(l, fromErrors).head.None? && LQueue(l, fromErrors).tail.Some?
    ensures r.Some? ==> LWf(r.value.l) && r.value.l.store == l.store
    ensures r.Some? ==> r.value.l.hasProgress == l.hasProgress && r.value.l.entryCap == l.entryCap
    ensures r.Some? ==> LQueue(r.value.l, !fromErrors) == LQueue(l, !fromErrors)
    ensures r.Some? ==> (r.value.ret == Failure(EAGAIN) <==> LQueue(l, fromErrors).head.None?)
  {
    var q := LQueue(l, fromErrors);
    var got: Option<(Option<nat>, SList)> := if peek then Some((q.head, q)) else RemoveHead(l.next, q);
    match got
    case None => None
    case Some((h, q2)) =>
      var l1 := LWithQueue(l, fromErrors, q2);
      if h.None? then Some(LRead(l1, Failure(EAGAIN), 0, []))
      else
        var st := l.store[h.value];
        var n := Min(|st.entry|, len);
        if peek then
          var (n2, s2) := InsertTail(l1.next, l1.spare, h.value);
          Some(LRead(l1.(next := n2, spare := s2), Success(n), st.event, st.entry[..n]))
        else Some(LRead(l1, Success(n), st.event, st.entry[..n]))
  }

  /**
   * As written, a read without FI_PEEK returns what the corrected read
   * returns but loses the entry it consumes: the pointers afterwards
   * link the rest of the list, and the entry is on none of the three.
   */
  lemma ReadLeaksEntry(l: Linked, eq: Eq, fromErrors: bool, len: nat)
    requires Represents(l, eq) && Wf(eq) && Conserved(eq) && Queue(eq, fromErrors) != []
    ensures LWf(l)
    ensures var r := ReadPrivAsWritten(l, fromErrors, len, false);
      var q := Queue(eq, fromErrors);
      var c := ReadPriv(eq, fromErrors, len, false);
      var left := WithQueue(eq, fromErrors, q[1..]);
      && r.Some? && r.value.ret == c.ret && r.value.event == c.event && r.value.data == c.data
      && Represents(r.value.l, left)
      && multiset(Slots(left))[q[0]] == 0
      && !Conserved(left)
  {
    RepresentsWf(l, eq);
    var q := Queue(eq, fromErrors);
    RemoveHeadChain(l.next, LQueue(l, fromErrors), q);
    var left := WithQueue(eq, fromErrors, q[1..]);
    assert q == [q[0]] + q[1..];
    SlotsSplit(eq);
    SlotsSplit(left);
    ListedOnce(eq, q[0]);
    Lists.IdsCount(|eq.store|, q[0]);
  }

  /**
   * As written, a peek returns what the corrected peek returns but also
   * links the entry into the free list: it stays at the head of its own
   * list while the free list ends with it, and its one next pointer,
   * which the two lists share, is cleared.
   */
  lemma PeekAliasesEntry(l: Linked, eq: Eq, fromErrors: bool, len: nat)
    requires Represents(l, eq) && Wf(eq) && Conserved(eq) && Queue(eq, fromErrors) != []
    ensures LWf(l)
    ensures var r := ReadPrivAsWritten(l, fromErrors, len, true);
      var q := Queue(eq, fromErrors);
      var c := ReadPriv(eq, fromErrors, len, true);
      && r.Some? && r.value.ret == c.ret && r.value.event == c.event && r.value.data == c.data
      && LQueue(r.value.l, fromErrors) == LQueue(l, fromErrors)
      && LQueue(r.value.l, fromErrors).head == Some(q[0])
      && Chain(r.value.l.next, r.value.l.spare, eq.spare + [q[0]])
      && r.value.l.next[q[0]] == None
  {
    RepresentsWf(l, eq);
    ConservedApart(eq);
    var q := Queue(eq, fromErrors);
    assert q[0] !in eq.spare;
    InsertTailChain(l.next, l.spare, eq.spare, q[0]);
  }

  /**
   * The consequence with two or more events pending: after a peek the
   * event list's head has a NULL next pointer while its tail is still
   * the last event, so the pointers link no sequence of entries; the
   * next read returns the peeked event and leaves a NULL head with a
   * stale tail, and the read after it follows the NULL head. The events
   * behind the peeked one are never returned.
   */
  lemma PeekCutsQueue(l: Linked, eq: Eq, len: nat)
    requires Represents(l, eq) && Wf(eq) && Conserved(eq) && |eq.events| >= 2
    ensures LWf(l)
    ensures var p := ReadPrivAsWritten(l, false, len, true);
      var h := eq.events[0];
      var last := eq.events[|eq.events| - 1];
      && p.Some?
      && (forall s :: !Chain(p.value.l.next, p.value.l.events, s))
      && var r1 := ReadPrivAsWritten(p.value.l, false, len, false);
      && r1.Some? && r1.value.ret.Success? && r1.value.event == eq.store[h].event
      && r1.value.l.events == SList(None, Some(last))
      && ReadPrivAsWritten(r1.value.l, false, len, false).None?
  {
    RepresentsWf(l, eq);
    PeekAliasesEntry(l, eq, false, len);
    var p := ReadPrivAsWritten(l, false, len, true).value;
    var h := eq.events[0];
    var last := eq.events[|eq.events| - 1];
    assert h != last;
    CutLinksNothing(p.l.next, p.l.events);
  }

  /**
   * The consequence with one event pending and no free entry: a peek
   * puts the event's entry on the free list, and the next eq_add takes
   * that entry for the new event and appends it to the event list, where
   * it already is. The list then holds that one entry with the new
   * event in it: the peeked event is gone, one read returns the new
   * event, and the read after it finds nothing.
   */
  lemma PeekThenAddOverwrites(l: Linked, eq: Eq, len: nat, event: nat, buf: seq<byte>)
    requires Represents(l, eq) && Wf(eq) && Conserved(eq) && |eq.events| == 1 && eq.spare == []
    ensures LWf(l)
    ensures var p := ReadPrivAsWritten(l, false, len, true);
      var h := eq.events[0];
      && p.Some?
      && var a := LAdd(p.value.l, event, buf, 0);
      && a.Some?
      && Chain(a.value.next, a.value.events, [h]) && a.value.spare == Empty
      && a.value.store[h] == Stored(event, buf[..Min(|buf|, eq.entryCap)], 0)
      && var r1 := ReadPrivAsWritten(a.value, false, len, false);
      && r1.Some? && r1.value.ret.Success? && r1.value.event == event
      && var r2 := ReadPrivAsWritten(r1.value.l, false, len, false);
      && r2.Some? && r2.value.ret == Failure(EAGAIN)
  {
    RepresentsWf(l, eq);
    PeekAliasesEntry(l, eq, false, len);
  }

  /** No progress run adds an error event. */
  predicate NoErrors(rounds: seq<seq<Arrival>>)
  {
    forall i, j | 0 <= i < |rounds| && 0 <= j < |rounds[i]| :: rounds[i][j].error == 0
  }

  /** How the as-written sread loop ends: it returns, it follows a NULL pointer, or the rounds supplied run out. */
  datatype Spin = Returned(read: LRead) | Faulted | RoundsOut

  /**
   * dpa_eq_sread with a positive timeout, as written: each round is the
   * progress run at the top of the loop (with, after an EAGAIN, the one
   * the loop makes before going round), then FI_EAVAIL when the error
   * list has a head, else one eq_read_priv as written. The loop runs
   * while the timeout is positive and the timeout never changes, so it
   * leaves only through FI_EAVAIL; the events it reads on the way are
   * consumed and their contents overwritten by the next read.
   */
  function SReadAsWritten(l: Linked, len: nat, peek: bool, rounds: seq<seq<Arrival>>): (r: Spin)
    requires LWf(l)
    ensures r.Returned? ==> r.read.ret == Failure(EAVAIL)
    decreases |rounds|
  {
    if rounds == [] then RoundsOut
    else match LDeliver(l, rounds[0])
      case None => Faulted
      case Some(l1) =>
        if l1.errors.head.Some? then Returned(LRead(l1, Failure(EAVAIL), 0, []))
        else match ReadPrivAsWritten(l1, false, len, peek)
          case None => Faulted
          case Some(r) => SReadAsWritten(r.l, len, peek, rounds[1..])
  }

  /** Without an error event, a positive-timeout sread as written never returns. */
  lemma {:induction false} SReadNeverReturns(l: Linked, len: nat, peek: bool, rounds: seq<seq<Arrival>>)
    requires LWf(l) && l.errors.head.None? && NoErrors(rounds)
    ensures !SReadAsWritten(l, len, peek, rounds).Returned?
    decreases |rounds|
  {
    if rounds != [] {
      assert forall j | 0 <= j < |rounds[0]| :: rounds[0][j].error == 0;
      var l1 := LDeliver(l, rounds[0]);
      if l1.Some? {
        var r := ReadPrivAsWritten(l1.value, false, len, peek);
        if r.Some? {
          assert NoErrors(rounds[1..]) by {
            forall i, j | 0 <= i < |rounds[1..]| && 0 <= j < |rounds[1..][i]|
              ensures rounds[1..][i][j].error == 0
            {
              assert rounds[1..][i] == rounds[i + 1];
            }
          }
          SReadNeverReturns(r.value.l, len, peek, rounds[1..]);
        }
      }
    }
  }

  /**
   * Where the corrected sread returns the first event a round brings, the
   * code as written, from the same consistent queue, reads the same event,
   * drops its entry and goes on to the next round.
   */
  lemma SReadReturnsFirstEvent(l: Linked, eq: Eq, len: nat, rounds: seq<seq<Arrival>>)
    requires Represents(l, eq) && Wf(eq) && Conserved(eq) && rounds != []
    requires Deliver(eq, rounds[0]).errors == [] && Deliver(eq, rounds[0]).events != []
    ensures LWf(l)
    ensures var e1 := Deliver(eq, rounds[0]);
      var c := ReadPriv(e1, false, len, false);
      && SRead(eq, len, false, rounds) == c
      && c.ret.Success? && c.event == e1.store[e1.events[0]].event
      && LDeliver(l, rounds[0]).Some?
      && var l1 := LDeliver(l, rounds[0]).value;
      && Represents(l1, e1)
      && var r := ReadPrivAsWritten(l1, false, len, false);
      && r.Some? && r.value.event == c.event && r.value.data == c.data
      && Represents(r.value.l, e1.(events := e1.events[1..]))
      && SReadAsWritten(l, len, false, rounds) == SReadAsWritten(r.value.l, len, false, rounds[1..])
  {
    RepresentsWf(l, eq);
    LDeliverAgrees(l, eq, rounds[0]);
    var e1 := Deliver(eq, rounds[0]);
    DeliverConserves(eq, rounds[0]);
    var l1 := LDeliver(l, rounds[0]).value;
    ReadLeaksEntry(l1, e1, false, len);
  }

  /** An error event makes both versions return FI_EAVAIL before any read of the event list. */
  lemma SReadErrorFirst(l: Linked, eq: Eq, len: nat, peek: bool, rounds: seq<seq<Arrival>>)
    requires Represents(l, eq) && Wf(eq) && Conserved(eq) && rounds != [] && Deliver(eq, rounds[0]).errors != []
    ensures LWf(l)
    ensures var e1 := Deliver(eq, rounds[0]);
      && SRead(eq, len, peek, rounds) == EqRead(e1, Failure(EAVAIL), 0, [])
      && LDeliver(l, rounds[0]).Some?
      && var l1 := LDeliver(l, rounds[0]).value;
      && Represents(l1, e1)
      && SReadAsWritten(l, len, peek, rounds) == Returned(LRead(l1, Failure(EAVAIL), 0, []))
  {
    RepresentsWf(l, eq);
    LDeliverAgrees(l, eq, rounds[0]);
  }
}
