/**
 * The slist of list.h at the level of its pointers: a head and a tail
 * pointer per list, and one next pointer per entry, shared by every list
 * the entry is linked into. Entries are numbered; None is NULL.
 *
 * Chain relates a list to the sequence of entries it holds when its
 * pointers are consistent. The operations follow list.h step by step,
 * so they also say what happens when the pointers are not consistent:
 * slist_remove_head follows the head's next pointer without checking it.
 */
module SLinks {
  import opened Fabric
  import Lists

  /** struct slist: the head and tail pointers. */
  datatype SList = SList(head: Option<nat>, tail: Option<nat>)

  /** slist_init: head and tail NULL. */
  const Empty: SList := SList(None, None)

  /** Every pointer of the list names an entry, and a list with a head has a tail. */
  predicate Points(next: seq<Option<nat>>, l: SList)
  {
    && (l.head.Some? ==> l.head.value < |next| && l.tail.Some?)
    && (l.tail.Some? ==> l.tail.value < |next|)
  }

  /** Every next pointer names an entry. */
  predicate Closed(next: seq<Option<nat>>)
  {
    forall i | 0 <= i < |next| :: next[i].Some? ==> next[i].value < |next|
  }

  /**
   * The list links exactly the entries of s, in order: the head is the
   * first, each entry's next pointer is the one after it, the last has a
   * NULL next pointer and is the tail.
   */
  predicate Chain(next: seq<Option<nat>>, l: SList, s: seq<nat>)
  {
    && (forall i | 0 <= i < |s| :: s[i] < |next|)
    && Lists.Distinct(s)
    && (forall i | 0 <= i < |s| - 1 :: next[s[i]] == Some(s[i + 1]))
    && (s == [] ==> l == Empty)
    && (s != [] ==> l.head == Some(s[0]) && l.tail == Some(s[|s| - 1]) && next[s[|s| - 1]] == None)
  }

  lemma ChainPoints(next: seq<Option<nat>>, l: SList, s: seq<nat>)
    requires Chain(next, l, s)
    ensures Points(next, l)
  {
  }

  /**
   * slist_insert_tail: item becomes the tail, linked from the old tail
   * (or as the head of an empty list), and its next pointer is cleared.
   * A list counts as empty when its head is NULL.
   */
  function InsertTail(next: seq<Option<nat>>, l: SList, item: nat): (r: (seq<Option<nat>>, SList))
    requires Points(next, l) && item < |next|
    ensures |r.0| == |next| && Points(r.0, r.1) && r.1.tail == Some(item) && r.0[item] == None
    ensures Closed(next) ==> Closed(r.0)
  {
    if l.head.None? then (next[item := None], SList(Some(item), Some(item)))
    else (next[l.tail.value := Some(item)][item := None], SList(l.head, Some(item)))
  }

  /**
   * slist_remove_head: the head is returned. When head and tail are
   * equal the list is reset; otherwise the head moves to the old head's
   * next entry. None when that means following a NULL head.
   */
  function RemoveHead(next: seq<Option<nat>>, l: SList): (r: Option<(Option<nat>, SList)>)
    requires Points(next, l) && Closed(next)
    ensures r.None? <==> l.head.None? && l.tail.Some?
    ensures r.Some? ==> r.value.0 == l.head && Points(next, r.value.1)
  {
    if l.head == l.tail then Some((l.head, Empty))
    else if l.head.None? then None
    else Some((l.head, SList(next[l.head.value], l.tail)))
  }

  /** Removing the head of a consistent list returns its first entry and links the rest. */
  lemma RemoveHeadChain(next: seq<Option<nat>>, l: SList, s: seq<nat>)
    requires Chain(next, l, s) && Closed(next)
    ensures Points(next, l)
    ensures RemoveHead(next, l).Some?
    ensures var (item, rest) := RemoveHead(next, l).value;
      && item == (if s == [] then None else Some(s[0]))
      && Chain(next, rest, if s == [] then [] else s[1..])
  {
    if |s| >= 2 {
      assert s[0] != s[|s| - 1];
      assert next[s[0]] == Some(s[1]);
      var t := s[1..];
      assert forall i | 0 <= i < |t| - 1 :: next[t[i]] == Some(t[i + 1]) by {
        forall i | 0 <= i < |t| - 1 ensures next[t[i]] == Some(t[i + 1]) {
          assert t[i] == s[i + 1] && t[i + 1] == s[i + 2];
        }
      }
    }
  }

  /** Appending an entry that is not on a consistent list links it last. */
  lemma InsertTailChain(next: seq<Option<nat>>, l: SList, s: seq<nat>, item: nat)
    requires Chain(next, l, s) && item < |next| && item !in s
    ensures Points(next, l)
    ensures var (n2, l2) := InsertTail(next, l, item);
      && Chain(n2, l2, s + [item])
      && forall x | 0 <= x < |next| && x != item && (s == [] || x != s[|s| - 1]) :: n2[x] == next[x]
  {
    var (n2, l2) := InsertTail(next, l, item);
    var t := s + [item];
    forall i | 0 <= i < |t| - 1
      ensures n2[t[i]] == Some(t[i + 1])
    {
      if i < |s| - 1 {
        assert s[i] != s[|s| - 1];
      }
    }
  }

  /** A list whose entries' next pointers are untouched keeps its chain. */
  lemma ChainFrame(next: seq<Option<nat>>, n2: seq<Option<nat>>, l: SList, s: seq<nat>)
    requires Chain(next, l, s) && |next| <= |n2|
    requires forall i | 0 <= i < |s| :: n2[s[i]] == next[s[i]]
    ensures Chain(n2, l, s)
  {
    forall i | 0 <= i < |s| - 1
      ensures n2[s[i]] == Some(s[i + 1])
    {
      assert next[s[i]] == Some(s[i + 1]);
    }
  }

  /** A head whose next pointer is NULL but which is not the tail links no sequence of entries. */
  lemma CutLinksNothing(next: seq<Option<nat>>, l: SList)
    requires l.head.Some? && l.head != l.tail && l.head.value < |next| && next[l.head.value] == None
    ensures forall s :: !Chain(next, l, s)
  {
    forall s
      ensures !Chain(next, l, s)
    {
      if |s| >= 2 && s[0] == l.head.value {
        assert next[s[0]] != Some(s[1]);
      }
    }
  }
}
