/**
 * The growable array of array.h: a header recording the element size
 * and a count, followed by the elements. The model keeps the header and
 * the number of elements the allocation has room for; the elements
 * themselves live with the user (the address vector keeps its own).
 *
 * Growth sizes the new allocation with sizeof(value_size), the size of a
 * size_t, where the element size is meant, and never updates the count.
 */
module GrowArray {
  import opened Fabric

  /** sizeof(size_t) on the LP64 targets the provider is built for. */
  const SIZEOF_SIZE_T: nat := 8

  /** The header (value_size, count) and the room the allocation has, in elements. */
  datatype Array = Array(valueSize: nat, count: nat, room: nat)

  /** An array header whose element size is that of a real C type. */
  predicate Valid(a: Array)
  {
    a.valueSize > 0
  }

  /** _array_create_priv: room for count elements, and the header says so. */
  function Create(count: nat, valueSize: nat): (a: Array)
    requires valueSize > 0
    ensures Valid(a) && a.room == count && ArrayCount(a) == count && a.valueSize == valueSize
  {
    Array(valueSize, count, count)
  }

  /** array_count: the count stored in the header. */
  function ArrayCount(a: Array): nat
  {
    a.count
  }

  /** The element count array_request_size reallocates for: twice the recorded count plus the request. */
  function GrowTo(a: Array, count: nat): (n: nat)
    ensures n >= count && n >= 2 * a.count
  {
    2 * a.count + count
  }

  /**
   * array_request_size as written: an array whose count covers the
   * request is returned as it is; otherwise it is reallocated to
   * GrowTo(count) times sizeof(size_t) bytes, with the header unchanged.
   * None when reallocation fails.
   */
  function RequestSizeAsWritten(a: Array, count: nat, reallocOk: bool): (r: Option<Array>)
    requires Valid(a)
    ensures count <= a.count ==> r == Some(a)
    ensures count > a.count && !reallocOk ==> r.None?
    ensures r.Some? ==> Valid(r.value) && r.value.valueSize == a.valueSize && r.value.count == a.count
    ensures count > a.count && reallocOk ==> r.Some? && r.value.room * a.valueSize <= GrowTo(a, count) * SIZEOF_SIZE_T
  {
    if count <= a.count then Some(a)
    else if !reallocOk then None
    else Some(a.(room := GrowTo(a, count) * SIZEOF_SIZE_T / a.valueSize))
  }

  /**
   * array_request_size, corrected: the new allocation holds GrowTo(count)
   * elements of the array's own size, and the header records that.
   */
  function RequestSize(a: Array, count: nat, reallocOk: bool): (r: Option<Array>)
    requires Valid(a)
    ensures count <= a.count ==> r == Some(a)
    ensures count > a.count ==> (r.Some? <==> reallocOk)
    ensures r.Some? ==> Valid(r.value) && r.value.valueSize == a.valueSize
    ensures r.Some? && count > a.count ==> ArrayCount(r.value) == r.value.room && r.value.room >= count
  {
    if count <= a.count then Some(a)
    else if !reallocOk then None
    else Some(Array(a.valueSize, GrowTo(a, count), GrowTo(a, count)))
  }

  /** The corrected array keeps its count and its room equal, so a request it once granted is granted again without reallocating. */
  lemma RequestSizeIdempotent(a: Array, count: nat, reallocOk: bool, again: bool)
    requires Valid(a) && a.count == a.room && RequestSize(a, count, reallocOk).Some?
    ensures var b := RequestSize(a, count, reallocOk).value;
      b.count == b.room && b.room >= count && RequestSize(b, count, again) == Some(b)
  {
  }

  /**
   * For elements no larger than a size_t (the address vector's 8-byte
   * addresses) the as-written growth still makes room for the request.
   */
  lemma AsWrittenRoomForSmallValues(a: Array, count: nat)
    requires Valid(a) && a.valueSize <= SIZEOF_SIZE_T && count > a.count
    ensures RequestSizeAsWritten(a, count, true).value.room >= count
  {
    var n := GrowTo(a, count);
    assert n * SIZEOF_SIZE_T >= n * a.valueSize;
    DivLowerBound(n * SIZEOF_SIZE_T, a.valueSize, n);
  }

  lemma DivLowerBound(x: nat, d: nat, q: nat)
    requires d > 0 && q * d <= x
    ensures x / d >= q
  {
    var r := x / d;
    assert x == r * d + x % d && x % d < d;
    assert x < (r + 1) * d;
    if r < q {
      MulMono(r + 1, q, d);
      assert false;
    }
  }

  lemma MulMono(x: nat, y: nat, d: nat)
    requires x <= y
    ensures x * d <= y * d
  {
  }

  /**
   * As written the count never moves past the size the array was created
   * with: array_count under-reports a grown array, every later request
   * above the original count reallocates again (and fails when realloc
   * does, though the room is there), and elements wider than a size_t do
   * not fit: a 16-byte element array grown for one element gets room for
   * none.
   */
  lemma RequestSizeStaleCount(a: Array, count: nat)
    requires Valid(a) && count > a.count
    ensures var b := RequestSizeAsWritten(a, count, true).value;
      && ArrayCount(b) == ArrayCount(a) < count
      && RequestSizeAsWritten(b, count, false).None?
    ensures RequestSizeAsWritten(Create(0, 16), 1, true).value.room == 0
    ensures RequestSize(a, count, true).value.count >= count
  {
  }
}
