/**
 * The intrusive lists of list.h, as sequences of the entries they link.
 *
 * An slist holds its entries from head to tail; a dlist is a circular list
 * through a sentinel and holds its entries in the order next pointers
 * visit them from the sentinel. An entry is identified by its address, so
 * the entries of one list are distinct: an intrusive entry has one link
 * field and can be on one list, once, at a time.
 */
module Lists {
  import opened Fabric

  /** Concatenation regroups freely. */
  lemma ConcatAssoc<T>(a: seq<T>, b: seq<T>, c: seq<T>)
    ensures a + (b + c) == (a + b) + c
  {
  }

  /** A prefix of a concatenation reaching past its first part. */
  lemma PrefixConcat<T>(a: seq<T>, b: seq<T>, n: nat)
    requires |a| <= n <= |a| + |b|
    ensures (a + b)[..n] == a + b[..n - |a|]
  {
  }

  /** No entry occurs twice. */
  predicate Distinct<T(==)>(s: seq<T>)
  {
    forall i, j | 0 <= i < j < |s| :: s[i] != s[j]
  }

  // ---------------------------------------------------------------------
  // Singly-linked lists (slist)

  /** slist_init: head and tail NULL. */
  function SInit<T>(): (s: seq<T>)
    ensures |s| == 0
  {
    []
  }

  /** The head pointer; None is NULL. */
  function SHead<T>(s: seq<T>): (h: Option<T>)
    ensures h.None? <==> s == []
    ensures h.Some? ==> h.value == s[0]
  {
    if s == [] then None else Some(s[0])
  }

  /** The tail pointer; None is NULL. */
  function STail<T>(s: seq<T>): (t: Option<T>)
    ensures t.None? <==> s == []
    ensures t.Some? ==> t.value == s[|s| - 1]
  {
    if s == [] then None else Some(s[|s| - 1])
  }

  /** slist_empty: the head is NULL. */
  predicate SEmpty<T>(s: seq<T>)
  {
    SHead(s).None?
  }

  lemma SInitEmpty<T>()
    ensures SEmpty(SInit<T>())
  {
  }

  /**
   * slist_insert_head: the item becomes the head; into an empty list it
   * also becomes the tail.
   */
  function SInsertHead<T>(s: seq<T>, x: T): (r: seq<T>)
    ensures SHead(r) == Some(x)
    ensures STail(r) == if SEmpty(s) then Some(x) else STail(s)
    ensures |r| == |s| + 1 && r[1..] == s
  {
    [x] + s
  }

  /**
   * slist_insert_tail: the item becomes the tail with a NULL next; into an
   * empty list it also becomes the head. Earlier entries keep their order.
   */
  function SInsertTail<T>(s: seq<T>, x: T): (r: seq<T>)
    ensures STail(r) == Some(x)
    ensures SHead(r) == if SEmpty(s) then Some(x) else SHead(s)
    ensures |r| == |s| + 1 && r[..|s|] == s
  {
    s + [x]
  }

  /**
   * slist_remove_head: returns the head (NULL on an empty list). When the
   * head is also the tail the list is re-initialised, otherwise the head
   * moves to the next entry. The two tests agree because entries are
   * distinct.
   */
  function SRemoveHead<T(==)>(s: seq<T>): (res: (Option<T>, seq<T>))
    requires Distinct(s)
    ensures s == [] ==> res == (None, [])
    ensures s != [] ==> res == (Some(s[0]), s[1..])
  {
    if SHead(s) == STail(s) then
      assert s != [] ==> s[0] == s[|s| - 1] && |s| == 1 && s[1..] == SInit();
      (SHead(s), SInit())
    else (SHead(s), s[1..])
  }

  /** Removing the head undoes inserting a head. */
  lemma RemoveHeadInsertHead<T>(s: seq<T>, x: T)
    requires Distinct(s) && x !in s
    ensures Distinct(SInsertHead(s, x))
    ensures SRemoveHead(SInsertHead(s, x)) == (Some(x), s)
  {
  }

  /** The index of the first entry satisfying match, if any. */
  function FirstMatch<T>(s: seq<T>, matches: T -> bool): (k: Option<nat>)
    ensures k.Some? ==> k.value < |s| && matches(s[k.value])
    ensures k.Some? ==> forall j | 0 <= j < k.value :: !matches(s[j])
    ensures k.None? ==> forall j | 0 <= j < |s| :: !matches(s[j])
    decreases |s|
  {
    if s == [] then None
    else if matches(s[0]) then Some(0)
    else match FirstMatch(s[1..], matches)
      case None => None
      case Some(k) => Some(k + 1)
  }

  /**
   * slist_remove_first_match: walks from the head, unlinks the first entry
   * that matches and returns it; the tail moves back to its predecessor
   * when that entry was last. Returns NULL and changes nothing when no
   * entry matches.
   */
  function SRemoveFirstMatch<T>(s: seq<T>, matches: T -> bool): (res: (Option<T>, seq<T>))
    decreases |s|
  {
    if s == [] then (None, s)
    else if matches(s[0]) then (Some(s[0]), s[1..])
    else
      var (item, rest) := SRemoveFirstMatch(s[1..], matches);
      (item, [s[0]] + rest)
  }

  /**
   * What remove_first_match does, against the index of the first match:
   * nothing when there is none, else exactly that entry is unlinked and
   * the others keep their order.
   */
  lemma {:induction false} RemoveFirstMatchSpec<T>(s: seq<T>, matches: T -> bool)
    ensures var (item, rest) := SRemoveFirstMatch(s, matches);
      match FirstMatch(s, matches)
      case None => item.None? && rest == s
      case Some(k) => item == Some(s[k]) && rest == s[..k] + s[k + 1..]
    decreases |s|
  {
    if s != [] && !matches(s[0]) {
      RemoveFirstMatchSpec(s[1..], matches);
      var k := FirstMatch(s[1..], matches);
      if k.Some? {
        assert s[1..][..k.value] + s[1..][k.value + 1..] == s[1..k.value + 1] + s[k.value + 2..];
        assert [s[0]] + s[1..k.value + 1] == s[..k.value + 1];
      }
    }
  }

  /** The tail after remove_first_match: unchanged unless the last entry was unlinked. */
  lemma RemoveFirstMatchTail<T>(s: seq<T>, matches: T -> bool)
    ensures var k := FirstMatch(s, matches);
      STail(SRemoveFirstMatch(s, matches).1)
        == if k.Some? && k.value == |s| - 1 then (if k.value == 0 then None else Some(s[k.value - 1])) else STail(s)
  {
    RemoveFirstMatchSpec(s, matches);
    var k := FirstMatch(s, matches);
    if k.Some? {
      UnlinkTail(s, k.value);
    }
  }

  /** The last entry once entry k is cut out. */
  lemma UnlinkTail<T>(s: seq<T>, k: nat)
    requires k < |s|
    ensures STail(s[..k] + s[k + 1..])
        == if k == |s| - 1 then (if k == 0 then None else Some(s[k - 1])) else STail(s)
  {
    var rest := s[..k] + s[k + 1..];
    if k < |s| - 1 {
      assert rest[|rest| - 1] == s[|s| - 1];
    } else if k > 0 {
      assert rest == s[..k];
    }
  }

  /**
   * A queue filled at the tail and drained at the head hands entries out
   * in the order they were inserted.
   */
  function Drain<T(==)>(s: seq<T>): seq<T>
    requires Distinct(s)
    decreases |s|
  {
    if SEmpty(s) then []
    else
      var (h, rest) := SRemoveHead(s);
      [h.value] + Drain(rest)
  }

  lemma {:induction false} DrainInOrder<T>(s: seq<T>)
    requires Distinct(s)
    ensures Drain(s) == s
    decreases |s|
  {
    if s != [] {
      DrainInOrder(s[1..]);
    }
  }

  /** An entry inserted at the tail is drained after every entry already queued. */
  lemma InsertTailDrainsLast<T>(s: seq<T>, x: T)
    requires Distinct(s) && x !in s
    ensures Distinct(SInsertTail(s, x))
    ensures Drain(SInsertTail(s, x)) == Drain(s) + [x]
  {
    DrainInOrder(s);
    DrainInOrder(s + [x]);
  }

  // ---------------------------------------------------------------------
  // Doubly-linked circular lists with a sentinel (dlist)

  /** A position in a dlist: the sentinel, or the entry at an index. */
  datatype DPos = Sentinel | At(index: nat)

  predicate ValidPos<T>(s: seq<T>, p: DPos)
  {
    p.Sentinel? || p.index < |s|
  }

  /** The successor of a position: what its next pointer points to. */
  function DNext<T>(s: seq<T>, p: DPos): (q: DPos)
    requires ValidPos(s, p)
    ensures ValidPos(s, q)
  {
    var k := if p.Sentinel? then 0 else p.index + 1;
    if k < |s| then At(k) else Sentinel
  }

  /** The predecessor of a position: what its prev pointer points to. */
  function DPrev<T>(s: seq<T>, p: DPos): (q: DPos)
    requires ValidPos(s, p)
    ensures ValidPos(s, q)
  {
    var k := if p.Sentinel? then |s| else p.index;
    if k == 0 then Sentinel else At(k - 1)
  }

  lemma NextPrevInverse<T>(s: seq<T>, p: DPos)
    requires ValidPos(s, p)
    ensures DPrev(s, DNext(s, p)) == p && DNext(s, DPrev(s, p)) == p
  {
  }

  /** dlist_init: the sentinel links to itself. */
  function DInit<T>(): (s: seq<T>)
    ensures DNext(s, Sentinel) == Sentinel && DPrev(s, Sentinel) == Sentinel
  {
    []
  }

  /** dlist_empty: the sentinel's next is the sentinel. */
  predicate DEmpty<T>(s: seq<T>)
  {
    DNext(s, Sentinel) == Sentinel
  }

  lemma DEmptyIff<T>(s: seq<T>)
    ensures DEmpty(s) <==> s == []
  {
  }

  /** dlist_insert_after: the item goes immediately after the entry at p. */
  function DInsertAfter<T>(s: seq<T>, p: DPos, x: T): (r: seq<T>)
    requires ValidPos(s, p)
    ensures |r| == |s| + 1
  {
    var k := if p.Sentinel? then 0 else p.index + 1;
    s[..k] + [x] + s[k..]
  }

  /** After insert_after, the item's prev is p, p's next is the item and the item's next is p's old next. */
  lemma InsertAfterLinks<T>(s: seq<T>, p: DPos, x: T)
    requires ValidPos(s, p)
    ensures var r := DInsertAfter(s, p, x);
      var k := if p.Sentinel? then 0 else p.index + 1;
      && r[k] == x && DNext(r, p) == At(k) && DPrev(r, At(k)) == p
      && r[..k] == s[..k] && r[k + 1..] == s[k..]
  {
  }

  /** dlist_insert_before: insert after the entry's predecessor. */
  function DInsertBefore<T>(s: seq<T>, p: DPos, x: T): (r: seq<T>)
    requires ValidPos(s, p)
    ensures |r| == |s| + 1
  {
    DInsertAfter(s, DPrev(s, p), x)
  }

  /** dlist_insert_head and dlist_insert_tail, as insert after and before the sentinel. */
  lemma InsertHeadTail<T>(s: seq<T>, x: T)
    ensures DInsertAfter(s, Sentinel, x) == [x] + s
    ensures DInsertBefore(s, Sentinel, x) == s + [x]
  {
  }

  /** dlist_remove: the entry's neighbours are linked to each other. */
  function DRemove<T>(s: seq<T>, i: nat): (r: seq<T>)
    requires i < |s|
    ensures |r| == |s| - 1
  {
    s[..i] + s[i + 1..]
  }

  /** After remove, the old neighbours of the entry are adjacent. */
  lemma RemoveRelinks<T>(s: seq<T>, i: nat)
    requires i < |s|
    ensures var r := DRemove(s, i);
      && DNext(r, if i == 0 then Sentinel else At(i - 1)) == (if i < |r| then At(i) else Sentinel)
      && (forall j | 0 <= j < i :: r[j] == s[j])
      && (forall j | i <= j < |r| :: r[j] == s[j + 1])
  {
  }

  /** Removing what was just inserted restores the list. */
  lemma RemoveInsertAfter<T>(s: seq<T>, p: DPos, x: T)
    requires ValidPos(s, p)
    ensures DRemove(DInsertAfter(s, p, x), if p.Sentinel? then 0 else p.index + 1) == s
  {
    var k := if p.Sentinel? then 0 else p.index + 1;
    var r := DInsertAfter(s, p, x);
    assert r[..k] == s[..k] && r[k + 1..] == s[k..];
    assert s[..k] + s[k..] == s;
  }

  /**
   * The loop of dlist_remove_first_match, at the entry with index from:
   * the first matching entry from there on is unlinked and returned, or
   * NULL with no change when the walk reaches the sentinel.
   */
  function DRemoveFrom<T>(s: seq<T>, from: nat, matches: T -> bool): (res: (Option<T>, seq<T>))
    requires from <= |s|
    ensures res.0.None? <==> forall j | from <= j < |s| :: !matches(s[j])
    ensures res.0.None? ==> res.1 == s
    ensures res.0.Some? ==> exists k: nat | from <= k < |s| ::
      && matches(s[k]) && (forall j | from <= j < k :: !matches(s[j]))
      && res == (Some(s[k]), DRemove(s, k))
    decreases |s| - from
  {
    if from == |s| then (None, s)
    else if matches(s[from]) then (Some(s[from]), DRemove(s, from))
    else
      var r := DRemoveFrom(s, from + 1, matches);
      assert r.0.Some? ==> exists k: nat | from <= k < |s| ::
        && matches(s[k]) && (forall j | from <= j < k :: !matches(s[j]))
        && r == (Some(s[k]), DRemove(s, k));
      r
  }

  /**
   * dlist_remove_first_match from the sentinel: the first matching entry
   * is unlinked and returned, or NULL with no change.
   */
  function DRemoveFirstMatch<T>(s: seq<T>, matches: T -> bool): (res: (Option<T>, seq<T>))
    ensures res.0.None? <==> forall j | 0 <= j < |s| :: !matches(s[j])
    ensures res.0.None? ==> res.1 == s
    ensures res.0.Some? ==> exists k: nat | k < |s| ::
      && matches(s[k]) && (forall j | 0 <= j < k :: !matches(s[j]))
      && res == (Some(s[k]), s[..k] + s[k + 1..])
  {
    DRemoveFrom(s, 0, matches)
  }

  /** Both lists unlink the same entry. */
  lemma RemoveFirstMatchAgree<T>(s: seq<T>, matches: T -> bool)
    ensures SRemoveFirstMatch(s, matches) == DRemoveFirstMatch(s, matches)
  {
    RemoveFirstMatchSpec(s, matches);
    var res := DRemoveFirstMatch(s, matches);
    var sres := SRemoveFirstMatch(s, matches);
    var f := FirstMatch(s, matches);
    if f.None? {
      assert sres.0 == None == res.0 && sres.1 == s == res.1;
    } else {
      var k := f.value;
      assert res.0.Some?;
      var k': nat :| k' < |s| && matches(s[k']) && (forall j | 0 <= j < k' :: !matches(s[j]))
        && res == (Some(s[k']), s[..k'] + s[k' + 1..]);
      assert !(k < k') && !(k' < k);
      assert sres.0 == Some(s[k]) == res.0 && sres.1 == s[..k] + s[k + 1..] == res.1;
    }
  }

  // ---------------------------------------------------------------------
  // Numbered entry pools

  /** The slot numbers from m to m + k - 1, highest first. */
  function Desc(m: nat, k: nat): (s: seq<nat>)
    ensures |s| == k
  {
    seq(k, i requires 0 <= i < k => m + k - 1 - i)
  }

  /** The slots 0 .. n - 1. */
  function Ids(n: nat): (s: seq<nat>)
    ensures |s| == n
  {
    seq(n, i requires 0 <= i < n => i)
  }

  /** Numbering k more slots after the first m adds exactly the slots m .. m + k - 1. */
  lemma {:induction false} IdsGrow(m: nat, k: nat)
    ensures multiset(Ids(m + k)) == multiset(Ids(m)) + multiset(Desc(m, k))
  {
    if k > 0 {
      IdsGrow(m, k - 1);
      assert Ids(m + k) == Ids(m + k - 1) + [m + k - 1];
      assert Desc(m, k) == [m + k - 1] + Desc(m, k - 1);
    } else {
      assert Ids(m + k) == Ids(m);
    }
  }

  /** Each slot below n is numbered exactly once. */
  lemma IdsCount(n: nat, x: nat)
    requires x < n
    ensures multiset(Ids(n))[x] == 1
  {
    assert Ids(n) == Ids(x) + [x] + Ids(n)[x + 1..];
    assert x !in Ids(x);
    assert x !in Ids(n)[x + 1..];
  }
}
