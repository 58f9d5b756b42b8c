/**
 * The chained hash map of hash.h: map_size buckets, each a singly linked
 * list of copies of the values put, chosen by hashing the key field of
 * the value. Keys are unsigned ints compared by their bytes, so equal
 * keys are equal numbers; the model keeps each value with its key.
 *
 * Only the default hash, uint_hash, is modelled: the one user of the map
 * passes NULL for the hash function.
 */
module Hash {
  import opened Fabric
  import Lists

  /** A stored value together with its key field. */
  datatype Entry<V> = Entry(key: nat, value: V)

  /** hash_map: map_size and its buckets. */
  datatype HashMap<V> = HashMap(mapSize: nat, buckets: seq<seq<Entry<V>>>)

  /** uint_hash: the key modulo map_size. */
  function UintHash(key: nat, mapSize: nat): (h: nat)
    requires mapSize > 0
    ensures h < mapSize && (key < mapSize ==> h == key)
  {
    key % mapSize
  }

  /** Every bucket is there and every entry sits in the bucket its key hashes to. */
  predicate Wf<V>(m: HashMap<V>)
  {
    && m.mapSize > 0 && |m.buckets| == m.mapSize
    && forall b, i | 0 <= b < |m.buckets| && 0 <= i < |m.buckets[b]| :: UintHash(m.buckets[b][i].key, m.mapSize) == b
  }

  /** _private_hash_create: map_size empty buckets. */
  function Create<V>(mapSize: nat): (m: HashMap<V>)
    ensures m.mapSize == mapSize && |m.buckets| == mapSize
    ensures forall b | 0 <= b < mapSize :: m.buckets[b] == []
    ensures mapSize > 0 ==> Wf(m)
  {
    HashMap(mapSize, seq(mapSize, _ => []))
  }

  function BucketOf<V>(m: HashMap<V>, key: nat): (b: nat)
    requires Wf(m)
    ensures b < |m.buckets|
  {
    UintHash(key, m.mapSize)
  }

  /** hash_put: append a copy of the value at the tail of its key's bucket; nothing is replaced. */
  function Put<V>(m: HashMap<V>, e: Entry<V>): (r: HashMap<V>)
    requires Wf(m)
    ensures Wf(r) && r.mapSize == m.mapSize
    ensures r.buckets[BucketOf(m, e.key)] == m.buckets[BucketOf(m, e.key)] + [e]
    ensures forall b | 0 <= b < |m.buckets| && b != BucketOf(m, e.key) :: r.buckets[b] == m.buckets[b]
  {
    var b := BucketOf(m, e.key);
    m.(buckets := m.buckets[b := Lists.SInsertTail(m.buckets[b], e)])
  }

  /** The value of the first entry of a bucket with the key. */
  function Find<V>(bucket: seq<Entry<V>>, key: nat): (r: Option<V>)
    ensures r.None? <==> forall i | 0 <= i < |bucket| :: bucket[i].key != key
    ensures r.Some? ==> exists i | 0 <= i < |bucket| :: bucket[i] == Entry(key, r.value)
  {
    if bucket == [] then None
    else if bucket[0].key == key then Some(bucket[0].value)
    else Find(bucket[1..], key)
  }

  /** hash_get: the earliest value put under the key, or NULL. */
  function Get<V>(m: HashMap<V>, key: nat): (r: Option<V>)
    requires Wf(m)
  {
    Find(m.buckets[BucketOf(m, key)], key)
  }

  function KeyIs<V>(key: nat): Entry<V> -> bool
  {
    (e: Entry<V>) => e.key == key
  }

  /** hash_remove: unlink the first entry with the key from its bucket; no change when there is none. */
  function Remove<V>(m: HashMap<V>, key: nat): (r: HashMap<V>)
    requires Wf(m)
    ensures Wf(r) && r.mapSize == m.mapSize
    ensures forall b | 0 <= b < |m.buckets| && b != BucketOf(m, key) :: r.buckets[b] == m.buckets[b]
    ensures Get(m, key).None? ==> r == m
  {
    var b := BucketOf(m, key);
    var bucket := m.buckets[b];
    Lists.RemoveFirstMatchSpec(bucket, KeyIs(key));
    RemoveStaysInBucket(bucket, key, m.mapSize, b);
    m.(buckets := m.buckets[b := Lists.SRemoveFirstMatch(bucket, KeyIs(key)).1])
  }

  /** Removing from a bucket keeps only entries that were in it. */
  lemma RemoveStaysInBucket<V>(bucket: seq<Entry<V>>, key: nat, mapSize: nat, b: nat)
    requires mapSize > 0
    requires forall i | 0 <= i < |bucket| :: UintHash(bucket[i].key, mapSize) == b
    ensures var rest := Lists.SRemoveFirstMatch(bucket, KeyIs(key)).1;
      forall i | 0 <= i < |rest| :: UintHash(rest[i].key, mapSize) == b
  {
    Lists.RemoveFirstMatchSpec(bucket, KeyIs(key));
    var rest := Lists.SRemoveFirstMatch(bucket, KeyIs(key)).1;
    forall i | 0 <= i < |rest|
      ensures UintHash(rest[i].key, mapSize) == b
    {
      var k := Lists.FirstMatch(bucket, KeyIs(key));
      if k.Some? {
        var j := if i < k.value then i else i + 1;
        assert rest[i] == bucket[j];
      }
    }
  }

  /** Put never replaces: a key already present keeps the value it had; a new key maps to the value put. */
  lemma {:induction false} GetPut<V>(m: HashMap<V>, e: Entry<V>, key: nat)
    requires Wf(m)
    ensures Get(Put(m, e), key) == if Get(m, key).Some? then Get(m, key) else if e.key == key then Some(e.value) else None
  {
    var b := BucketOf(m, key);
    if b == BucketOf(m, e.key) {
      FindAppend(m.buckets[b], e, key);
    }
  }

  lemma {:induction false} FindAppend<V>(bucket: seq<Entry<V>>, e: Entry<V>, key: nat)
    ensures Find(bucket + [e], key) == if Find(bucket, key).Some? then Find(bucket, key) else if e.key == key then Some(e.value) else None
    decreases |bucket|
  {
    if bucket != [] {
      assert (bucket + [e])[1..] == bucket[1..] + [e];
      FindAppend(bucket[1..], e, key);
    }
  }

  /** Removing one key leaves what every other key maps to as it was. */
  lemma {:induction false} GetRemoveOther<V>(m: HashMap<V>, key: nat, other: nat)
    requires Wf(m) && other != key
    ensures Get(Remove(m, key), other) == Get(m, other)
  {
    var b := BucketOf(m, key);
    if BucketOf(m, other) == b {
      FindRemoveOther(m.buckets[b], key, other);
    }
  }

  lemma {:induction false} FindRemoveOther<V>(bucket: seq<Entry<V>>, key: nat, other: nat)
    requires other != key
    ensures Find(Lists.SRemoveFirstMatch(bucket, KeyIs(key)).1, other) == Find(bucket, other)
    decreases |bucket|
  {
    if bucket != [] && bucket[0].key != key {
      FindRemoveOther(bucket[1..], key, other);
      var rest := Lists.SRemoveFirstMatch(bucket[1..], KeyIs(key)).1;
      assert ([bucket[0]] + rest)[1..] == rest;
    }
  }

  /** Put then remove under a key that was absent gives back the map as it was. */
  lemma {:induction false} RemovePut<V>(m: HashMap<V>, e: Entry<V>)
    requires Wf(m) && Get(m, e.key).None?
    ensures Remove(Put(m, e), e.key) == m
  {
    var b := BucketOf(m, e.key);
    RemoveAppendAbsent(m.buckets[b], e);
    assert m.buckets[b := m.buckets[b]] == m.buckets;
  }

  lemma {:induction false} RemoveAppendAbsent<V>(bucket: seq<Entry<V>>, e: Entry<V>)
    requires forall i | 0 <= i < |bucket| :: bucket[i].key != e.key
    ensures Lists.SRemoveFirstMatch(bucket + [e], KeyIs(e.key)) == (Some(e), bucket)
    decreases |bucket|
  {
    if bucket == [] {
      assert [] + [e] == [e];
    } else {
      assert (bucket + [e])[1..] == bucket[1..] + [e];
      RemoveAppendAbsent(bucket[1..], e);
      assert [bucket[0]] + bucket[1..] == bucket;
    }
  }
}
