/**
 * Byte-level building blocks shared by the model: bytes, zero fill,
 * in-place copies into a byte region (memcpy/memset), and little-endian
 * machine words as they sit in shared memory.
 */
module Bytes {

  /** One byte of memory. */
  type byte = b: int | 0 <= b < 256

  /** Bytes in a size_t / uint64_t on the 64-bit hosts the provider targets. */
  const WORD: nat := 8

  /** 2^64: one more than the largest size_t value. */
  const WORD_LIMIT: nat := 0x1_0000_0000_0000_0000

  /** 2^32: one more than the largest unsigned int (dpa_intid_t, dpa_segmid_t). */
  const U32_LIMIT: nat := 0x1_0000_0000

  /** n zero bytes, as left by memset(p, 0, n) or a zero-initialised segment. */
  function Zeros(n: nat): (z: seq<byte>)
    ensures |z| == n
    ensures forall i | 0 <= i < n :: z[i] == 0
  {
    seq(n, _ => 0)
  }

  lemma ZerosSplit(a: nat, b: nat)
    ensures Zeros(a + b)[..a] == Zeros(a) && Zeros(a + b)[a..] == Zeros(b)
  {
  }

  predicate AllZero(b: seq<byte>)
  {
    forall i | 0 <= i < |b| :: b[i] == 0
  }

  function Min(a: int, b: int): int
  {
    if a <= b then a else b
  }

  /** The effect of memcpy(mem + at, src, |src|) on the region mem. */
  function Put(mem: seq<byte>, at: nat, src: seq<byte>): (m: seq<byte>)
    requires at + |src| <= |mem|
    ensures |m| == |mem|
  {
    seq(|mem|, q requires 0 <= q < |mem| => if at <= q < at + |src| then src[q - at] else mem[q])
  }

  /** 256^n: the number of values n bytes can hold. */
  function Pow256(n: nat): (p: nat)
    ensures p >= 1
  {
    if n == 0 then 1 else 256 * Pow256(n - 1)
  }

  /** The unsigned value of a little-endian byte string. */
  function DecodeLE(b: seq<byte>): nat
  {
    if b == [] then 0 else b[0] + 256 * DecodeLE(b[1..])
  }

  /** The n low-order bytes of v, least significant first (a store of an n-byte integer). */
  function EncodeLE(v: nat, n: nat): (b: seq<byte>)
    ensures |b| == n
  {
    if n == 0 then [] else [v % 256] + EncodeLE(v / 256, n - 1)
  }

  /** A 64-bit word as stored in memory. */
  function Word(v: nat): (b: seq<byte>)
    requires v < WORD_LIMIT
    ensures |b| == WORD
    ensures DecodeLE(b) == v
  {
    WordLimitIsPow(); DecodeEncode(v, WORD);
    EncodeLE(v, WORD)
  }

  lemma WordLimitIsPow()
    ensures Pow256(WORD) == WORD_LIMIT
    ensures Pow256(4) == U32_LIMIT
  {
  }

  lemma {:induction false} DecodeBound(b: seq<byte>)
    ensures DecodeLE(b) < Pow256(|b|)
  {
    if b != [] {
      DecodeBound(b[1..]);
    }
  }

  /** Reading back a stored integer yields the integer. */
  lemma {:induction false} DecodeEncode(v: nat, n: nat)
    requires v < Pow256(n)
    ensures DecodeLE(EncodeLE(v, n)) == v
  {
    if n > 0 {
      var b := EncodeLE(v, n);
      assert b[1..] == EncodeLE(v / 256, n - 1);
      DecodeEncode(v / 256, n - 1);
    }
  }

  /** Storing a read-back integer reproduces the bytes. */
  lemma {:induction false} EncodeDecode(b: seq<byte>)
    ensures EncodeLE(DecodeLE(b), |b|) == b
  {
    if b != [] {
      EncodeDecode(b[1..]);
      assert (b[0] + 256 * DecodeLE(b[1..])) / 256 == DecodeLE(b[1..]);
    }
  }

  /** A stored integer reads as zero exactly when every byte is zero. */
  lemma {:induction false} DecodeZeroIff(b: seq<byte>)
    ensures DecodeLE(b) == 0 <==> AllZero(b)
  {
    if b != [] {
      DecodeZeroIff(b[1..]);
      if AllZero(b) {
        assert AllZero(b[1..]) by {
          forall i | 0 <= i < |b[1..]| ensures b[1..][i] == 0 {
            assert b[1..][i] == b[i + 1];
          }
        }
      }
    }
  }
}
