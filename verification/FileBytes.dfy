/**
 What a file holds after a write: the bytes at the offset, zeros in a gap, and
 everything else as before.
 */
module FileBytes {
  import opened Common

  /** `n` bytes of a file from `off`, if it has them. */
  function Slice(d: seq<Byte>, off: nat, n: nat): (s: seq<Byte>) {
    if off + n <= |d| then d[off..off + n] else []
  }

  /** Byte `i` of a file that held `d0` before `b` was written at `off`; a gap
      between the two reads as zeros. */
  function StoredAt(d0: seq<Byte>, off: nat, b: seq<Byte>, i: nat): Byte {
    if off <= i < off + |b| then b[i - off] else if i < |d0| then d0[i] else 0
  }

  /** `d` is `d0` with exactly the bytes `b` at `off`: the file has grown only as
      far as they reach, and every other byte is as it was. */
  ghost predicate Stored(d0: seq<Byte>, off: nat, b: seq<Byte>, d: seq<Byte>) {
    && |d| == (if b == [] || off + |b| <= |d0| then |d0| else off + |b|)
    && forall i: nat {:trigger StoredAt(d0, off, b, i)} :: i < |d| ==> d[i] == StoredAt(d0, off, b, i)
  }

  /** A file after `b` has been written at `off`. */
  function Splice(d: seq<Byte>, off: nat, b: seq<Byte>): (r: seq<Byte>)
    ensures Stored(d, off, b, r)
  {
    if b == [] then d
    else
      (if off <= |d| then d[..off] else d + Repeat(0, off - |d|)) + b
      + (if off + |b| < |d| then d[off + |b|..] else [])
  }

  /** What a caller sees: the bytes are there, and nothing else has changed. */
  ghost predicate Arrived(d0: seq<Byte>, off: nat, b: seq<Byte>, d: seq<Byte>) {
    && (b == [] ==> d == d0)
    && (b != [] ==> off + |b| <= |d| && d[off..off + |b|] == b)
    && |d0| <= |d|
    && forall i: nat :: i < |d0| && !(off <= i < off + |b|) ==> d[i] == d0[i]
  }

  lemma StoredMeans(d0: seq<Byte>, off: nat, b: seq<Byte>, d: seq<Byte>)
    requires Stored(d0, off, b, d)
    ensures Arrived(d0, off, b, d)
  {
    forall i: nat | i < |d| ensures d[i] == StoredAt(d0, off, b, i) {
    }
  }

  /** There is only one such file. */
  lemma StoredOnce(d0: seq<Byte>, off: nat, b: seq<Byte>, d: seq<Byte>, d': seq<Byte>)
    requires Stored(d0, off, b, d) && Stored(d0, off, b, d')
    ensures d == d'
  {
    forall i: nat | i < |d| ensures d[i] == d'[i] {
      assert d[i] == StoredAt(d0, off, b, i);
    }
  }

  /** Writing two pieces one behind the other is writing them joined. */
  lemma StoredTwice(d0: seq<Byte>, off: nat, a: seq<Byte>, b: seq<Byte>, d1: seq<Byte>, d2: seq<Byte>)
    requires Stored(d0, off, a, d1) && Stored(d1, off + |a|, b, d2)
    ensures Stored(d0, off, a + b, d2)
  {
    forall i: nat | i < |d2| ensures d2[i] == StoredAt(d0, off, a + b, i) {
      assert d2[i] == StoredAt(d1, off + |a|, b, i);
      assert i < |d1| ==> d1[i] == StoredAt(d0, off, a, i);
    }
  }

  lemma SliceMore(d: seq<Byte>, off: nat, a: nat, b: nat)
    requires off + a + b <= |d|
    ensures Slice(d, off, a) + Slice(d, off + a, b) == Slice(d, off, a + b)
  {
  }
}
