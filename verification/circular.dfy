/**
 * A circular byte area: positions that wrap at the top, stores that
 * continue at the bottom once they reach the top, and the view of the
 * area from a position (dpa_msg.h data_ptr and the copies of dpa_msg.c).
 */
module Circular {
  import opened Bytes

  lemma ModZero(x: int, c: int)
    requires c > 0 && 0 <= x < c
    ensures x % c == x
  {
  }

  lemma ModOnce(x: int, c: int)
    requires c > 0 && c <= x < 2 * c
    ensures x % c == x - c
  {
  }

  lemma ModNeg(x: int, c: int)
    requires c > 0 && -c <= x < 0
    ensures x % c == x + c
  {
  }

  /** The position k bytes after pos in a circular area of cap bytes. */
  function Step(pos: nat, k: nat, cap: nat): (q: nat)
    requires pos < cap && k <= cap
    ensures q < cap
  {
    if pos + k < cap then pos + k else pos + k - cap
  }

  lemma StepStep(pos: nat, a: nat, b: nat, cap: nat)
    requires pos < cap && a + b <= cap
    ensures Step(Step(pos, a, cap), b, cap) == Step(pos, a + b, cap)
  {
  }

  /** One memcpy or memset into the data area. */
  datatype Store = Store(at: nat, bytes: seq<byte>)

  predicate Fits(len: nat, ss: seq<Store>)
  {
    forall i | 0 <= i < |ss| :: ss[i].at + |ss[i].bytes| <= len
  }

  /** The data area after the stores, issued in order. */
  function Apply(mem: seq<byte>, ss: seq<Store>): (m: seq<byte>)
    requires Fits(|mem|, ss)
    ensures |m| == |mem|
    decreases |ss|
  {
    if ss == [] then mem else Apply(Put(mem, ss[0].at, ss[0].bytes), ss[1..])
  }

  lemma {:induction false} ApplyConcat(mem: seq<byte>, a: seq<Store>, b: seq<Store>)
    requires Fits(|mem|, a) && Fits(|mem|, b)
    ensures Fits(|mem|, a + b)
    ensures Apply(mem, a + b) == Apply(Apply(mem, a), b)
    decreases |a|
  {
    if a != [] {
      assert (a + b)[0] == a[0];
      assert (a + b)[1..] == a[1..] + b;
      var m := Put(mem, a[0].at, a[0].bytes);
      ApplyConcat(m, a[1..], b);
      assert Apply(mem, a + b) == Apply(m, a[1..] + b);
    } else {
      assert a + b == b;
    }
  }

  /** The stores that put b at position at, continuing at the bottom once the top is reached. */
  function WrappedStores(cap: nat, at: nat, b: seq<byte>): (ss: seq<Store>)
    requires at < cap && |b| <= cap
    ensures Fits(cap, ss)
  {
    if at + |b| <= cap then [Store(at, b)]
    else [Store(at, b[..cap - at]), Store(0, b[cap - at..])]
  }

  /** The n bytes starting at position at, continuing at the bottom once the top is reached. */
  function ReadWrapped(mem: seq<byte>, at: nat, n: nat): (v: seq<byte>)
    requires at < |mem| && n <= |mem|
    ensures |v| == n
  {
    if at + n <= |mem| then mem[at..at + n] else mem[at..] + mem[..at + n - |mem|]
  }

  /** The data area as seen from position pos: byte t of the view is t bytes after pos. */
  function Rot(mem: seq<byte>, pos: nat): (v: seq<byte>)
    requires pos < |mem|
    ensures |v| == |mem|
    ensures forall t | 0 <= t < |mem| :: v[t] == mem[Step(pos, t, |mem|)]
  {
    seq(|mem|, t requires 0 <= t < |mem| => mem[Step(pos, t, |mem|)])
  }

  /** Positions seen from pos, re-expressed from the position s bytes further on. */
  lemma StepSplit(pos: nat, s: nat, t: nat, c: nat)
    requires pos < c && s <= c && t < c
    ensures s <= t ==> Step(pos, t, c) == Step(Step(pos, s, c), t - s, c)
    ensures t < s ==> Step(pos, t, c) == Step(Step(pos, s, c), c - s + t, c)
  {
  }

  /** Wrapped stores that do not reach the top are one copy. */
  lemma ApplyWrappedOne(mem: seq<byte>, at: nat, b: seq<byte>)
    requires at < |mem| && at + |b| <= |mem|
    ensures Apply(mem, WrappedStores(|mem|, at, b)) == Put(mem, at, b)
  {
    var ss := WrappedStores(|mem|, at, b);
    assert ss == [Store(at, b)];
    assert ss[1..] == [];
  }

  /** Wrapped stores that reach the top are two copies: up to the top, then from the bottom. */
  lemma ApplyWrappedTwo(mem: seq<byte>, at: nat, b: seq<byte>)
    requires at < |mem| && |b| <= |mem| && at + |b| > |mem|
    ensures Apply(mem, WrappedStores(|mem|, at, b)) == Put(Put(mem, at, b[..|mem| - at]), 0, b[|mem| - at..])
  {
    var c := |mem|;
    var ss := WrappedStores(c, at, b);
    var s1 := [Store(0, b[c - at..])];
    var m1 := Put(mem, at, b[..c - at]);
    assert Apply(mem, ss) == Apply(m1, s1) by {
      assert ss[0] == Store(at, b[..c - at]);
      assert ss[1..] == s1;
    }
    assert Apply(m1, s1) == Put(m1, 0, b[c - at..]) by {
      assert s1[1..] == [];
    }
  }

  lemma WrappedByteOne(mem: seq<byte>, at: nat, b: seq<byte>, u: nat)
    requires at + |b| <= |mem| && at < |mem| && u < |mem|
    ensures Put(mem, at, b)[Step(at, u, |mem|)] == if u < |b| then b[u] else mem[Step(at, u, |mem|)]
  {
  }

  lemma WrappedByteTwo(mem: seq<byte>, at: nat, b: seq<byte>, u: nat)
    requires at < |mem| && |b| <= |mem| && at + |b| > |mem| && u < |mem|
    ensures Put(Put(mem, at, b[..|mem| - at]), 0, b[|mem| - at..])[Step(at, u, |mem|)]
         == if u < |b| then b[u] else mem[Step(at, u, |mem|)]
  {
    var c := |mem|;
    var q := Step(at, u, c);
    var m1 := Put(mem, at, b[..c - at]);
    if u < c - at {
      assert q == at + u;
      assert m1[q] == b[u];
    } else if u < |b| {
      assert q == at + u - c;
      assert b[c - at..][q] == b[u];
    } else {
      assert q == at + u - c;
    }
  }

  /** Byte u after at, once b has been stored wrapped at at. */
  lemma WrappedByte(mem: seq<byte>, at: nat, b: seq<byte>, u: nat)
    requires at < |mem| && |b| <= |mem| && u < |mem|
    ensures Apply(mem, WrappedStores(|mem|, at, b))[Step(at, u, |mem|)]
         == if u < |b| then b[u] else mem[Step(at, u, |mem|)]
  {
    if at + |b| <= |mem| {
      ApplyWrappedOne(mem, at, b);
      WrappedByteOne(mem, at, b, u);
    } else {
      ApplyWrappedTwo(mem, at, b);
      WrappedByteTwo(mem, at, b, u);
    }
  }

  /** v with bytes s .. s + |b| replaced by b. */
  function Splice(v: seq<byte>, s: nat, b: seq<byte>): (w: seq<byte>)
    requires s + |b| <= |v|
    ensures |w| == |v|
  {
    seq(|v|, t requires 0 <= t < |v| => if s <= t < s + |b| then b[t - s] else v[t])
  }

  /** One byte of the view after a wrapped store. */
  lemma RotApplyByte(mem: seq<byte>, pos: nat, s: nat, b: seq<byte>, t: nat)
    requires pos < |mem| && s + |b| <= |mem| && t < |mem|
    ensures Apply(mem, WrappedStores(|mem|, Step(pos, s, |mem|), b))[Step(pos, t, |mem|)]
         == if s <= t < s + |b| then b[t - s] else mem[Step(pos, t, |mem|)]
  {
    var c := |mem|;
    StepSplit(pos, s, t, c);
    var u := if s <= t then t - s else c - s + t;
    WrappedByte(mem, Step(pos, s, c), b, u);
  }

  /** Storing b wrapped at s bytes after pos replaces bytes s .. s + |b| of the view from pos. */
  lemma RotApplyWrapped(mem: seq<byte>, pos: nat, s: nat, b: seq<byte>)
    requires pos < |mem| && s + |b| <= |mem|
    ensures Rot(Apply(mem, WrappedStores(|mem|, Step(pos, s, |mem|), b)), pos) == Splice(Rot(mem, pos), s, b)
  {
    var c := |mem|;
    var m := Apply(mem, WrappedStores(c, Step(pos, s, c), b));
    var lhs := Rot(m, pos);
    var rhs := Splice(Rot(mem, pos), s, b);
    forall t | 0 <= t < c ensures lhs[t] == rhs[t] {
      RotApplyByte(mem, pos, s, b, t);
    }
  }

  /** Reading n bytes wrapped from s bytes after pos reads bytes s .. s + n of the view from pos. */
  lemma RotReadWrapped(mem: seq<byte>, pos: nat, s: nat, n: nat)
    requires pos < |mem| && s + n <= |mem|
    ensures ReadWrapped(mem, Step(pos, s, |mem|), n) == Rot(mem, pos)[s..s + n]
  {
    var c := |mem|;
    var at := Step(pos, s, c);
    var lhs := ReadWrapped(mem, at, n);
    forall t | 0 <= t < n ensures lhs[t] == Rot(mem, pos)[s..s + n][t] {
      if at + n > c && t >= c - at {
        assert lhs[t] == mem[..at + n - c][t - (c - at)];
      }
    }
  }

  /** The view from k bytes further on is the view from pos rotated by k. */
  lemma RotShift(mem: seq<byte>, pos: nat, k: nat)
    requires pos < |mem| && k <= |mem|
    ensures Rot(mem, Step(pos, k, |mem|)) == Rot(mem, pos)[k..] + Rot(mem, pos)[..k]
  {
    var c := |mem|;
    var lhs := Rot(mem, Step(pos, k, c));
    var rhs := Rot(mem, pos)[k..] + Rot(mem, pos)[..k];
    forall t | 0 <= t < c ensures lhs[t] == rhs[t] {
      if t < c - k {
        assert rhs[t] == Rot(mem, pos)[k + t];
      } else {
        assert rhs[t] == Rot(mem, pos)[t - (c - k)];
      }
    }
  }

  /** The view from a position determines the data area. */
  lemma RotInjective(a: seq<byte>, b: seq<byte>, pos: nat)
    requires pos < |a| && |a| == |b| && Rot(a, pos) == Rot(b, pos)
    ensures a == b
  {
    var c := |a|;
    forall q | 0 <= q < c ensures a[q] == b[q] {
      var t := if q >= pos then q - pos else q + c - pos;
      assert Step(pos, t, c) == q;
      assert Rot(a, pos)[t] == Rot(b, pos)[t];
    }
  }

}
