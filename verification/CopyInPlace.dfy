/**
 `copy_file_range` from a file to itself: each chunk is read from the file as the
 chunks before it have left it, and short reads may make the chunks as small as
 they like.

 A copy is the list `ds` of what the file held after each chunk, with `ms` the
 number of bytes copied so far.
 */
module CopyInPlace {
  import opened Common
  import opened FileBytes

  const DEFAULT_BUFFER_SIZE: nat := 8192

  /** One chunk: the bytes from `m` to `m'` are read from the file and written to it. */
  ghost predicate ChunkStep(d: seq<Byte>, d': seq<Byte>, from: nat, to: nat, m: nat, m': nat) {
    m < m' <= m + DEFAULT_BUFFER_SIZE && from + m' <= |d| && Stored(d, to + m, d[from + m..from + m'], d')
  }

  ghost predicate IsCopy(ds: seq<seq<Byte>>, ms: seq<nat>, from: nat, to: nat) {
    && |ds| == |ms| > 0 && ms[0] == 0
    && forall i :: 0 <= i < |ms| - 1 ==> ChunkStep(ds[i], ds[i + 1], from, to, ms[i], ms[i + 1])
  }

  function Last<T>(s: seq<T>): T
    requires s != []
  {
    s[|s| - 1]
  }

  lemma CopyMore(ds: seq<seq<Byte>>, ms: seq<nat>, from: nat, to: nat, d: seq<Byte>, m: nat)
    requires IsCopy(ds, ms, from, to) && ChunkStep(Last(ds), d, from, to, Last(ms), m)
    ensures IsCopy(ds + [d], ms + [m], from, to)
  {
    var ds', ms' := ds + [d], ms + [m];
    forall i | 0 <= i < |ms'| - 1 ensures ChunkStep(ds'[i], ds'[i + 1], from, to, ms'[i], ms'[i + 1]) {
      if i < |ms| - 1 {
        assert ChunkStep(ds[i], ds[i + 1], from, to, ms[i], ms[i + 1]);
      }
    }
  }

  /** What the file held at first, with zeros past its end. */
  function OldBytes(d: seq<Byte>, from: nat, n: nat): (s: seq<Byte>)
    ensures |s| == n && forall i :: 0 <= i < n ==> s[i] == if from + i < |d| then d[from + i] else 0
  {
    seq(n, i requires 0 <= i < n => if from + i < |d| then d[from + i] else 0)
  }

  /** The copy one wants: the old bytes arrive, and no other byte changes. */
  ghost predicate Right(d: seq<Byte>, from: nat, to: nat, total: nat, d': seq<Byte>) {
    Stored(d, to, OldBytes(d, from, total), d')
  }

  /** A chunk that does not meet what has been written reads old bytes. */
  lemma ChunkIsOld(d: seq<Byte>, from: nat, to: nat, m: nat, m': nat, d1: seq<Byte>)
    requires Right(d, from, to, m, d1) && m <= m' && from + m' <= |d1| && (to <= from || from + m' <= to)
    ensures OldBytes(d, from, m) + d1[from + m..from + m'] == OldBytes(d, from, m')
  {
    var start, all := OldBytes(d, from, m), OldBytes(d, from, m) + d1[from + m..from + m'];
    forall i: nat | i < m' ensures all[i] == OldBytes(d, from, m')[i] {
      if i >= m {
        assert all[i] == d1[from + i] == StoredAt(d, to, start, from + i);
      }
    }
  }

  /** Copying within a file is right, whatever the chunks, as long as it goes towards
      the front or to a place behind all that is read. */
  lemma {:induction false} InPlaceIsRight(ds: seq<seq<Byte>>, ms: seq<nat>, from: nat, to: nat, i: nat)
    requires IsCopy(ds, ms, from, to) && i < |ms| && (to <= from || from + ms[i] <= to)
    ensures Right(ds[0], from, to, ms[i], ds[i])
    decreases i
  {
    if i > 0 {
      assert ChunkStep(ds[i - 1], ds[i], from, to, ms[i - 1], ms[i]);
      InPlaceIsRight(ds, ms, from, to, i - 1);
      ChunkIsOld(ds[0], from, to, ms[i - 1], ms[i], ds[i - 1]);
      StoredTwice(ds[0], to, OldBytes(ds[0], from, ms[i - 1]), ds[i - 1][from + ms[i - 1]..from + ms[i]],
                  ds[i - 1], ds[i]);
    }
  }

  // ------------------------------------------------------------- and only then

  lemma StoredByte(d: seq<Byte>, from: nat, to: nat, d': seq<Byte>)
    requires from < |d| && Stored(d, to, d[from..from + 1], d')
    ensures |d| <= |d'| && to < |d'| && d'[to] == d[from]
    ensures forall i: nat :: i < |d| && i != to ==> d'[i] == d[i]
  {
    StoredMeans(d, to, d[from..from + 1], d');
    assert d'[to..to + 1][0] == d'[to];
  }

  /** A copy byte by byte, in a file that holds all there is to read. */
  lemma {:induction false} ByteByByte(d: seq<Byte>, from: nat, to: nat, m: nat)
    returns (ds: seq<seq<Byte>>, ms: seq<nat>)
    requires from + m <= |d|
    ensures IsCopy(ds, ms, from, to) && |ms| == m + 1 && ds[0] == d
    ensures forall i :: 0 <= i <= m ==> ms[i] == i && |ds[i]| >= |d|
    decreases m
  {
    if m == 0 {
      return [d], [0];
    }
    ds, ms := ByteByByte(d, from, to, m - 1);
    var d1 := Last(ds);
    var d2 := Splice(d1, to + m - 1, d1[from + m - 1..from + m]);
    StoredByte(d1, from + m - 1, to + m - 1, d2);
    CopyMore(ds, ms, from, to, d2, m);
    ds, ms := ds + [d2], ms + [m];
  }

  lemma NextByte(ds: seq<seq<Byte>>, ms: seq<nat>, from: nat, to: nat, i: nat)
    requires IsCopy(ds, ms, from, to) && i + 1 < |ms| && ms[i] == i && ms[i + 1] == i + 1
    ensures from + i < |ds[i]| <= |ds[i + 1]| && to + i < |ds[i + 1]| && ds[i + 1][to + i] == ds[i][from + i]
    ensures forall k: nat :: k < |ds[i]| && k != to + i ==> ds[i + 1][k] == ds[i][k]
  {
    assert ChunkStep(ds[i], ds[i + 1], from, to, ms[i], ms[i + 1]);
    StoredByte(ds[i], from + i, to + i, ds[i + 1]);
  }

  /** Overlapping forwards: the first byte is copied to `to`, read again there, and
      copied once more to a place that should have got another byte. */
  lemma {:induction false} FirstByteSpreads(ds: seq<seq<Byte>>, ms: seq<nat>, from: nat, to: nat, i: nat)
    requires IsCopy(ds, ms, from, to) && from < to && to - from < i < |ms| && from < |ds[0]|
    requires forall k :: 0 <= k < |ms| ==> ms[k] == k
    ensures to + (to - from) < |ds[i]| && ds[i][to + (to - from)] == ds[0][from]
    decreases i
  {
    var n := to - from;
    NextByte(ds, ms, from, to, i - 1);
    if i - 1 > n {
      FirstByteSpreads(ds, ms, from, to, i - 1);
    } else {
      InPlaceIsRight(ds, ms, from, to, n);
      assert ds[n][to] == StoredAt(ds[0], to, OldBytes(ds[0], from, n), to);
    }
  }

  /** A file with a single mark. */
  function Marked(at: nat, n: nat): (d: seq<Byte>)
    ensures |d| == n && forall i :: 0 <= i < n ==> d[i] == if i == at then 1 else 0
  {
    seq(n, i requires 0 <= i < n => if i == at then 1 else 0)
  }

  ghost predicate AlwaysRight(from: nat, to: nat, total: nat) {
    forall ds: seq<seq<Byte>>, ms: seq<nat> :: IsCopy(ds, ms, from, to) && Last(ms) == total ==>
      Right(ds[0], from, to, total, Last(ds))
  }

  lemma OverlapGoesWrong(from: nat, to: nat, total: nat) returns (ds: seq<seq<Byte>>, ms: seq<nat>)
    requires from < to < from + total
    ensures IsCopy(ds, ms, from, to) && Last(ms) == total && !Right(ds[0], from, to, total, Last(ds))
  {
    var d, n := Marked(from, to + total), to - from;
    ds, ms := ByteByByte(d, from, to, total);
    FirstByteSpreads(ds, ms, from, to, total);
    assert StoredAt(d, to, OldBytes(d, from, total), to + n) == 0;
  }

  /** Copying `total` bytes within a file is right for every file and however the
      reads fall iff the target starts no later than the source, or behind its end. */
  lemma InPlaceIsExact(from: nat, to: nat, total: nat)
    ensures AlwaysRight(from, to, total) <==> to <= from || from + total <= to
  {
    if to <= from || from + total <= to {
      forall ds: seq<seq<Byte>>, ms: seq<nat> | IsCopy(ds, ms, from, to) && Last(ms) == total
        ensures Right(ds[0], from, to, total, Last(ds))
      {
        InPlaceIsRight(ds, ms, from, to, |ms| - 1);
      }
    } else {
      var ds, ms := OverlapGoesWrong(from, to, total);
    }
  }

  /** With full reads too: 12288 bytes from 0 to 4096.  The first chunk of 8192
      overwrites what the second one reads. */
  lemma FullReadsGoWrong() returns (ds: seq<seq<Byte>>, ms: seq<nat>)
    ensures IsCopy(ds, ms, 0, 4096) && ms == [0, 8192, 12288] && |ds[0]| == 16384
    ensures !Right(ds[0], 0, 4096, 12288, ds[2])
  {
    var d := Marked(4096, 16384);
    var d1 := Splice(d, 4096, d[0..8192]);
    var d2 := Splice(d1, 12288, d1[8192..12288]);
    ds, ms := [d, d1, d2], [0, 8192, 12288];
    assert d1[8192] == StoredAt(d, 4096, d[0..8192], 8192) == 1;
    assert d2[12288] == StoredAt(d1, 12288, d1[8192..12288], 12288) == 1;
    assert StoredAt(d, 4096, OldBytes(d, 0, 12288), 12288) == 0;
  }
}
