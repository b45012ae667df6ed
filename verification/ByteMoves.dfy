/**
 The loops that move bytes between files and pipes through a bounded buffer:
 `copy_file_range`, the two directions of `splice`, `readv` and `writev`.

 Every transfer may be short and every call may fail; the files and pipes choose.
 */
module ByteMoves {
  import opened Common
  import opened CopyInPlace
  import opened FileBytes

  const MAX_IOV: nat := 1024

  /** One transfer as the caller of a file or pipe sees it: what it asked to move, and
      the answer. */
  datatype Transfer = Transfer(asked: nat, got: Option<nat>)

  /** Since the log was `log0` there was a transfer, and the last one failed. */
  predicate FailedSince(log0: seq<Transfer>, log: seq<Transfer>) {
    |log0| < |log| && Last(log).got.None?
  }

  /** Or was asked for something and moved nothing. */
  predicate EmptySince(log0: seq<Transfer>, log: seq<Transfer>) {
    |log0| < |log| && Last(log).asked > 0 && Last(log).got == Some(0)
  }

  /** Or moved less than it was asked to. */
  predicate ShortSince(log0: seq<Transfer>, log: seq<Transfer>) {
    |log0| < |log| && Last(log).got.Some? && Last(log).got.value < Last(log).asked
  }

  class File {
    var data: seq<Byte>
    var pos: nat
    /** Every transfer so far; only the four operations below add to these. */
    ghost var readLog: seq<Transfer>
    ghost var writeLog: seq<Transfer>

    /** `read_at`: some prefix of what follows `off`, into the front of `buf`. */
    method ReadAt(off: nat, buf: array<Byte>, n: nat) returns (r: Option<nat>)
      requires n <= buf.Length
      modifies buf, this`readLog
      ensures r.Some? ==> r.value <= n && buf[..r.value] == Slice(data, off, r.value)
      ensures r.Some? && r.value > 0 ==> off + r.value <= |data|
      ensures readLog == old(readLog) + [Transfer(n, r)]
    {
      if * {
        readLog := readLog + [Transfer(n, None)];
        return None;
      }
      var room := if off <= |data| then Min(n, |data| - off) else 0;
      var k: nat :| k <= room;
      for i := 0 to k
        invariant buf[..i] == Slice(data, off, i) && readLog == old(readLog)
      {
        buf[i] := data[off + i];
        assert buf[..i + 1] == buf[..i] + [data[off + i]];
      }
      readLog := readLog + [Transfer(n, Some(k))];
      return Some(k);
    }

    /** `read`: the same from the file's own position, which moves on. */
    method Read(buf: array<Byte>, n: nat) returns (r: Option<nat>)
      requires n <= buf.Length
      modifies buf, this`pos, this`readLog
      ensures readLog == old(readLog) + [Transfer(n, r)]
      ensures r.Some? ==> r.value <= n && buf[..r.value] == Slice(data, old(pos), r.value)
      ensures r.Some? && r.value > 0 ==> old(pos) + r.value <= |data|
      ensures pos == old(pos) + if r.Some? then r.value else 0
    {
      r := ReadAt(pos, buf, n);
      if r.Some? {
        pos := pos + r.value;
      }
    }

    /** `write_at`: some prefix of the bytes lands at `off`. */
    method WriteAt(off: nat, bytes: seq<Byte>) returns (r: Option<nat>)
      modifies this`data, this`writeLog
      ensures writeLog == old(writeLog) + [Transfer(|bytes|, r)]
      ensures r.Some? ==> r.value <= |bytes| && Stored(old(data), off, bytes[..r.value], data)
      ensures r.None? ==> data == old(data)
    {
      if * {
        writeLog := writeLog + [Transfer(|bytes|, None)];
        return None;
      }
      var k: nat :| k <= |bytes|;
      data := Splice(data, off, bytes[..k]);
      writeLog := writeLog + [Transfer(|bytes|, Some(k))];
      return Some(k);
    }

    method Write(bytes: seq<Byte>) returns (r: Option<nat>)
      modifies this`data, this`pos, this`writeLog
      ensures writeLog == old(writeLog) + [Transfer(|bytes|, r)]
      ensures r.Some? ==> r.value <= |bytes| && Stored(old(data), old(pos), bytes[..r.value], data)
      ensures r.None? ==> data == old(data)
      ensures pos == old(pos) + if r.Some? then r.value else 0
    {
      r := WriteAt(pos, bytes);
      if r.Some? {
        pos := pos + r.value;
      }
    }
  }

  /** Where a call reads or writes: at a user offset, or at the file's position. */
  function Cursor(off: Option<nat>, pos: nat): nat {
    match off case None => pos case Some(o) => o
  }

  /** What one direction of a copy has done: `moved` bytes arrived, `taken` left
      the source. */
  ghost predicate Copied(src: seq<Byte>, from: nat, dst0: seq<Byte>, dst: seq<Byte>, to: nat, moved: nat, taken: nat) {
    && moved <= taken && (taken > 0 ==> from + taken <= |src|)
    && Stored(dst0, to, Slice(src, from, moved), dst)
  }

  /** One read of `k` bytes and one write of `w` of them extend a copy. */
  lemma CopiedMore(src: seq<Byte>, from: nat, dst0: seq<Byte>, dst: seq<Byte>, dst': seq<Byte>, to: nat,
                   moved: nat, k: nat, w: nat, chunk: seq<Byte>)
    requires Copied(src, from, dst0, dst, to, moved, moved)
    requires 0 < k && from + moved + k <= |src| && w <= k && chunk == Slice(src, from + moved, k)
    requires Stored(dst, to + moved, chunk[..w], dst')
    ensures Copied(src, from, dst0, dst', to, moved + w, moved + k)
  {
    var a, b, c := SliceParts(src, from, moved, k, w);
    StoredTwice(dst0, to, a, b, dst, dst');
  }

  lemma SliceParts(src: seq<Byte>, from: nat, moved: nat, k: nat, w: nat)
    returns (a: seq<Byte>, b: seq<Byte>, c: seq<Byte>)
    requires from + moved + k <= |src| && w <= k
    ensures a == Slice(src, from, moved) && |a| == moved && b == Slice(src, from + moved, k)[..w]
    ensures c == Slice(src, from, moved + w) && c == a + b
  {
    a, b, c := Slice(src, from, moved), Slice(src, from + moved, k)[..w], Slice(src, from, moved + w);
  }

  /** How one pass of a copy loop ends: `Full` goes round again. */
  datatype Pass = Failed | AtEnd | Short(w: nat) | Full(w: nat)

  /** The transfers of a pass that was to move `chunk` bytes say why it ended as it did. */
  predicate Explained(pass: Pass, chunk: nat, reads0: seq<Transfer>, reads1: seq<Transfer>,
                      writes0: seq<Transfer>, writes1: seq<Transfer>) {
    && |reads0| <= |reads1| && |writes0| <= |writes1|
    && match pass
       case Failed => FailedSince(reads0, reads1) || FailedSince(writes0, writes1)
       case AtEnd => chunk > 0 ==> EmptySince(reads0, reads1)
       case Short(_) => ShortSince(writes0, writes1)
       case Full(_) => true
  }

  /** A user offset is used and advanced instead of the file's position. */
  ghost predicate SameKind(off: Option<nat>, off': Option<nat>, pos0: nat, pos: nat) {
    (off.Some? ==> off'.Some? && pos == pos0) && (off.None? ==> off'.None?)
  }

  /** The two cursors of a copy do not run into each other: different files, or two
      user offsets. */
  ghost predicate Tracked(src: File, dst: File, offIn: Option<nat>, offOut: Option<nat>) {
    src != dst || (offIn.Some? && offOut.Some?)
  }

  /** How a copy stands: between files, what has arrived; within one, the chunks so
      far as `CopyInPlace` lists them. */
  ghost predicate Progress(src: File, dst: File, from: nat, to: nat, dst0: seq<Byte>, moved: nat, taken: nat,
                           ds: seq<seq<Byte>>, ms: seq<nat>)
    reads src`data, dst`data
  {
    if src != dst then Copied(src.data, from, dst0, dst.data, to, moved, taken)
    else
      && IsCopy(ds, ms, from, to) && ds[0] == dst0 && Last(ds) == dst.data && Last(ms) == moved <= taken
  }

  /** A chunk read from the file it is written to. */
  lemma InPlaceMore(ds: seq<seq<Byte>>, ms: seq<nat>, from: nat, to: nat, bytes: seq<Byte>, w: nat, d: seq<Byte>)
    returns (ds': seq<seq<Byte>>, ms': seq<nat>)
    requires IsCopy(ds, ms, from, to) && from + Last(ms) + |bytes| <= |Last(ds)| && w <= |bytes| <= DEFAULT_BUFFER_SIZE
    requires bytes == Slice(Last(ds), from + Last(ms), |bytes|) && Stored(Last(ds), to + Last(ms), bytes[..w], d)
    ensures IsCopy(ds', ms', from, to) && ds'[0] == ds[0] && Last(ds') == d && Last(ms') == Last(ms) + w
  {
    if w == 0 {
      StoredMeans(Last(ds), to + Last(ms), bytes[..w], d);
      return ds, ms;
    }
    var m := Last(ms);
    assert bytes[..w] == Last(ds)[from + m..from + (m + w)];
    CopyMore(ds, ms, from, to, d, m + w);
    return ds + [d], ms + [m + w];
  }

  /** The write of one pass. */
  method PutChunk(ghost src: File, ghost offIn: Option<nat>, dst: File, offOut: Option<nat>, bytes: seq<Byte>,
                  ghost from: nat, ghost to: nat, ghost dst0: seq<Byte>, ghost moved: nat,
                  ghost ds: seq<seq<Byte>>, ghost ms: seq<nat>)
    returns (pass: Pass, w: nat, offOut': Option<nat>, ghost ds': seq<seq<Byte>>, ghost ms': seq<nat>)
    requires 0 < |bytes| <= DEFAULT_BUFFER_SIZE
    requires Tracked(src, dst, offIn, offOut) ==>
      && Progress(src, dst, from, to, dst0, moved, moved, ds, ms) && Cursor(offOut, dst.pos) == to + moved
      && from + moved + |bytes| <= |src.data| && bytes == Slice(src.data, from + moved, |bytes|)
    modifies dst`data, dst`pos, dst`writeLog
    ensures w <= |bytes|
    ensures pass == Failed ==> FailedSince(old(dst.writeLog), dst.writeLog)
    ensures pass.Short? ==> ShortSince(old(dst.writeLog), dst.writeLog)
    ensures |old(dst.writeLog)| <= |dst.writeLog|
    ensures (pass == Failed && w == 0) || pass == (if w < |bytes| then Short(w) else Full(w))
    ensures SameKind(offOut, offOut', old(dst.pos), dst.pos)
    ensures Tracked(src, dst, offIn, offOut) ==>
      && Progress(src, dst, from, to, dst0, moved + w, moved + |bytes|, ds', ms')
      && Cursor(offOut', dst.pos) == to + moved + w
  {
    ghost var before := dst.data;
    var put: Option<nat>;
    put, offOut' := WriteSome(dst, offOut, bytes);
    w := if put.None? then 0 else put.value;
    pass := if put.None? then Failed else if w < |bytes| then Short(w) else Full(w);
    ds', ms' := ds, ms;
    assert bytes[..0] == [];
    if src != dst {
      CopiedMore(src.data, from, dst0, before, dst.data, to, moved, |bytes|, w, bytes);
    } else if Tracked(src, dst, offIn, offOut) {
      ds', ms' := InPlaceMore(ds, ms, from, to, bytes, w, dst.data);
    }
  }

  /** One pass: read a chunk, write it, with `moved` bytes copied before. */
  method CopyChunk(src: File, offIn: Option<nat>, dst: File, offOut: Option<nat>, buffer: array<Byte>, chunk: nat,
                   ghost from: nat, ghost to: nat, ghost dst0: seq<Byte>, ghost moved: nat,
                   ghost ds: seq<seq<Byte>>, ghost ms: seq<nat>)
    returns (pass: Pass, offIn': Option<nat>, offOut': Option<nat>, ghost moved': nat, ghost taken: nat,
             ghost ds': seq<seq<Byte>>, ghost ms': seq<nat>)
    requires chunk <= buffer.Length <= DEFAULT_BUFFER_SIZE
    requires Tracked(src, dst, offIn, offOut) ==>
      && Progress(src, dst, from, to, dst0, moved, moved, ds, ms)
      && Cursor(offIn, src.pos) == from + moved && Cursor(offOut, dst.pos) == to + moved
    modifies buffer, src`pos, src`readLog, dst`data, dst`pos, dst`writeLog
    ensures moved' <= taken <= moved + chunk
    ensures Explained(pass, chunk, old(src.readLog), src.readLog, old(dst.writeLog), dst.writeLog)
    ensures offIn'.Some? == offIn.Some? && offOut'.Some? == offOut.Some?
    ensures Tracked(src, dst, offIn, offOut) ==>
      && Progress(src, dst, from, to, dst0, moved', taken, ds', ms')
      && Cursor(offIn', src.pos) == from + taken && Cursor(offOut', dst.pos) == to + moved'
      && SameKind(offIn, offIn', old(src.pos), src.pos) && SameKind(offOut, offOut', old(dst.pos), dst.pos)
    ensures moved' == moved + match pass case Short(w) => w case Full(w) => w case _ => 0
    ensures pass.Full? ==> taken == moved' && pass.w > 0
    ensures pass.Short? ==> moved' < taken
    ensures pass.AtEnd? ==> taken == moved
  {
    offOut' := offOut;
    moved', taken, ds', ms' := moved, moved, ds, ms;
    var got: Option<nat>;
    got, offIn' := ReadSome(src, offIn, buffer, chunk);
    if got.None? {
      return Failed, offIn', offOut', moved', taken, ds', ms';
    }
    var k := got.value;
    if k == 0 {
      return AtEnd, offIn', offOut', moved', taken, ds', ms';
    }
    var bytes := buffer[..k];
    var w: nat;
    pass, w, offOut', ds', ms' := PutChunk(src, offIn, dst, offOut, bytes, from, to, dst0, moved, ds, ms);
    moved', taken := moved + w, moved + k;
  }

  /** The loop of `copy_file_range`. */
  method CopyLoop(src: File, offIn: Option<nat>, dst: File, offOut: Option<nat>, len: nat)
    returns (r: Option<nat>, offIn': Option<nat>, offOut': Option<nat>, ghost moved: nat, ghost taken: nat,
             ghost ds: seq<seq<Byte>>, ghost ms: seq<nat>)
    modifies src`pos, src`readLog, dst`data, dst`pos, dst`writeLog
    ensures moved <= taken <= len && taken - moved <= DEFAULT_BUFFER_SIZE
    ensures r.Some? ==> r.value == moved
    ensures r.None? ==> FailedSince(old(src.readLog), src.readLog) || FailedSince(old(dst.writeLog), dst.writeLog)
    ensures r.Some? && r.value < len ==>
      EmptySince(old(src.readLog), src.readLog) || ShortSince(old(dst.writeLog), dst.writeLog)
    ensures Tracked(src, dst, offIn, offOut) ==>
      && Progress(src, dst, Cursor(offIn, old(src.pos)), Cursor(offOut, old(dst.pos)), old(dst.data),
                  moved, taken, ds, ms)
      && Cursor(offIn', src.pos) == Cursor(offIn, old(src.pos)) + taken
      && Cursor(offOut', dst.pos) == Cursor(offOut, old(dst.pos)) + moved
      && SameKind(offIn, offIn', old(src.pos), src.pos) && SameKind(offOut, offOut', old(dst.pos), dst.pos)
  {
    offIn', offOut', moved, taken, ds, ms := offIn, offOut, 0, 0, [dst.data], [0];
    ghost var from, to, dst0 := Cursor(offIn, src.pos), Cursor(offOut, dst.pos), dst.data;
    var buffer := new Byte[Min(DEFAULT_BUFFER_SIZE, len)](_ => 0);
    var remaining, total := len, 0;
    while remaining > 0
      invariant total + remaining == len && total == moved == taken
      invariant offIn'.Some? == offIn.Some? && offOut'.Some? == offOut.Some?
      invariant |old(src.readLog)| <= |src.readLog| && |old(dst.writeLog)| <= |dst.writeLog|
      invariant Tracked(src, dst, offIn, offOut) ==>
        && Progress(src, dst, from, to, dst0, moved, moved, ds, ms)
        && Cursor(offIn', src.pos) == from + moved && Cursor(offOut', dst.pos) == to + moved
        && SameKind(offIn, offIn', old(src.pos), src.pos) && SameKind(offOut, offOut', old(dst.pos), dst.pos)
      decreases remaining
    {
      var chunk := Min(DEFAULT_BUFFER_SIZE, remaining);
      var pass;
      pass, offIn', offOut', moved, taken, ds, ms :=
        CopyChunk(src, offIn', dst, offOut', buffer, chunk, from, to, dst0, moved, ds, ms);
      match pass {
        case Failed => return None, offIn', offOut', moved, taken, ds, ms;
        case AtEnd => return Some(total), offIn', offOut', moved, taken, ds, ms;
        case Short(w) => return Some(total + w), offIn', offOut', moved, taken, ds, ms;
        case Full(w) => total, remaining := total + w, remaining - w;
      }
    }
    r := Some(total);
  }

  /** `copy_file_range`.  One descriptor for both is refused, and it stops after at
      most `len` bytes.  Between different files the destination is the old one with
      exactly the `total` bytes from the source's start, contiguously, and the source
      cursor is ahead by the tail of a final short write and no more.  Within one file,
      through two user offsets, the same holds of the bytes the file had at first if
      the target starts no later than the source or behind all that was copied.  It
      fails only when a transfer has failed, and stops before `len` only when the
      source had nothing more to give or the destination took less than it was given. */
  method CopyFileRange(src: File, offIn: Option<nat>, dst: File, offOut: Option<nat>, len: nat, sameFd: bool)
    returns (r: Option<nat>, offIn': Option<nat>, offOut': Option<nat>, ghost moved: nat, ghost taken: nat)
    modifies src`pos, src`readLog, dst`data, dst`pos, dst`writeLog
    ensures moved <= taken <= len && taken - moved <= DEFAULT_BUFFER_SIZE
    ensures sameFd ==> r == None && taken == 0
    ensures r.None? ==>
      sameFd || FailedSince(old(src.readLog), src.readLog) || FailedSince(old(dst.writeLog), dst.writeLog)
    ensures r.Some? && r.value < len ==>
      EmptySince(old(src.readLog), src.readLog) || ShortSince(old(dst.writeLog), dst.writeLog)
    ensures r.Some? ==> r.value == moved
    ensures src != dst ==>
      var (from, to) := (Cursor(offIn, old(src.pos)), Cursor(offOut, old(dst.pos)));
      && (moved > 0 ==> from + moved <= |src.data|)
      && Stored(old(dst.data), to, if moved > 0 then src.data[from..from + moved] else [], dst.data)
    ensures src == dst && offIn.Some? && offOut.Some? ==>
      (offOut.value <= offIn.value || offIn.value + moved <= offOut.value ==>
        Right(old(dst.data), offIn.value, offOut.value, moved, dst.data))
    ensures Tracked(src, dst, offIn, offOut) ==>
      && Cursor(offIn', src.pos) == Cursor(offIn, old(src.pos)) + taken
      && Cursor(offOut', dst.pos) == Cursor(offOut, old(dst.pos)) + moved
      && SameKind(offIn, offIn', old(src.pos), src.pos) && SameKind(offOut, offOut', old(dst.pos), dst.pos)
  {
    if sameFd {
      NothingStored(dst.data, Cursor(offOut, dst.pos), Cursor(offIn, src.pos));
      return None, offIn, offOut, 0, 0;
    }
    ghost var from, to := Cursor(offIn, src.pos), Cursor(offOut, dst.pos);
    ghost var ds, ms;
    r, offIn', offOut', moved, taken, ds, ms := CopyLoop(src, offIn, dst, offOut, len);
    if src != dst {
      assert moved == 0 ==> Slice(src.data, from, moved) == [];
    } else if offIn.Some? && offOut.Some? && (to <= from || from + moved <= to) {
      InPlaceIsRight(ds, ms, from, to, |ms| - 1);
    }
  }

  lemma NothingStored(d: seq<Byte>, to: nat, from: nat)
    ensures Stored(d, to, [], d) && Right(d, from, to, 0, d)
  {
    assert OldBytes(d, from, 0) == [];
  }

  method ReadSome(src: File, off: Option<nat>, buf: array<Byte>, n: nat) returns (r: Option<nat>, off': Option<nat>)
    requires n <= buf.Length
    modifies buf, src`pos, src`readLog
    ensures src.readLog == old(src.readLog) + [Transfer(n, r)]
    ensures
      var at := Cursor(off, old(src.pos));
      && (r.Some? ==> r.value <= n && buf[..r.value] == Slice(src.data, at, r.value))
      && (r.Some? && r.value > 0 ==> at + r.value <= |src.data|)
      && Cursor(off', src.pos) == at + (if r.Some? then r.value else 0)
    ensures (off.Some? ==> off'.Some? && src.pos == old(src.pos)) && (off.None? ==> off'.None?)
  {
    off' := off;
    match off {
      case None => r := src.Read(buf, n);
      case Some(o) =>
        r := src.ReadAt(o, buf, n);
        if r.Some? {
          off' := Some(o + r.value);
        }
    }
  }

  method WriteSome(dst: File, off: Option<nat>, bytes: seq<Byte>) returns (r: Option<nat>, off': Option<nat>)
    modifies dst`data, dst`pos, dst`writeLog
    ensures dst.writeLog == old(dst.writeLog) + [Transfer(|bytes|, r)]
    ensures
      var at := Cursor(off, old(dst.pos));
      && (r.Some? ==> r.value <= |bytes| && Stored(old(dst.data), at, bytes[..r.value], dst.data))
      && (r.None? ==> dst.data == old(dst.data))
      && Cursor(off', dst.pos) == at + (if r.Some? then r.value else 0)
    ensures (off.Some? ==> off'.Some? && dst.pos == old(dst.pos)) && (off.None? ==> off'.None?)
  {
    off' := off;
    match off {
      case None => r := dst.Write(bytes);
      case Some(o) =>
        r := dst.WriteAt(o, bytes);
        if r.Some? {
          off' := Some(o + r.value);
        }
    }
  }

  // ------------------------------------------------------------------- splice

  /** The pipe as a splice sees it: `available` is only a hint, since other
      readers may be at work; `taken` and `given` record what this call moved. */
  class Pipe {
    ghost var taken: seq<Byte>
    ghost var given: seq<Byte>
    ghost var readLog: seq<Transfer>
    ghost var writeLog: seq<Transfer>
    /** Every answer of `available_data`. */
    ghost var hints: seq<nat>

    method Available() returns (n: nat)
      modifies this`hints
      ensures hints == old(hints) + [n]
    {
      n := *;
      hints := hints + [n];
    }

    /** `read`: at most `n` bytes, nothing at end of file. */
    method Read(buf: array<Byte>, n: nat) returns (r: Option<nat>)
      requires n <= buf.Length
      modifies this`taken, this`readLog, buf
      ensures readLog == old(readLog) + [Transfer(n, r)]
      ensures r.Some? ==> r.value <= n && taken == old(taken) + buf[..r.value]
      ensures r.None? ==> taken == old(taken)
    {
      if * {
        readLog := readLog + [Transfer(n, None)];
        return None;
      }
      var k: nat :| k <= n;
      for i := 0 to k
        invariant taken == old(taken) && readLog == old(readLog)
      {
        var b: Byte :| true;
        buf[i] := b;
      }
      taken := taken + buf[..k];
      readLog := readLog + [Transfer(n, Some(k))];
      return Some(k);
    }

    /** `write`: all of it, unless the reader goes away. */
    method Write(bytes: seq<Byte>) returns (r: Option<nat>)
      modifies this`given, this`writeLog
      ensures writeLog == old(writeLog) + [Transfer(|bytes|, r)]
      ensures r.Some? ==> r.value <= |bytes| && given == old(given) + bytes[..r.value]
      ensures r.None? ==> given == old(given)
    {
      if * {
        writeLog := writeLog + [Transfer(|bytes|, None)];
        return None;
      }
      var k: nat :| k <= |bytes|;
      given := given + bytes[..k];
      writeLog := writeLog + [Transfer(|bytes|, Some(k))];
      return Some(k);
    }
  }

  /** Of the bytes taken from the pipe the first `total` are in the file. */
  ghost predicate Landed(data0: seq<Byte>, off: nat, data: seq<Byte>, taken: seq<Byte>, total: nat) {
    total <= |taken| && Stored(data0, off, taken[..total], data)
  }

  lemma LandedMore(data0: seq<Byte>, off: nat, data: seq<Byte>, data': seq<Byte>, taken: seq<Byte>,
                   bytes: seq<Byte>, w: nat)
    requires Landed(data0, off, data, taken, |taken|) && w <= |bytes|
    requires Stored(data, off + |taken|, bytes[..w], data')
    ensures Landed(data0, off, data', taken + bytes, |taken| + w)
  {
    assert taken[..|taken|] == taken;
    StoredTwice(data0, off, taken, bytes[..w], data, data');
    assert (taken + bytes)[..|taken| + w] == taken + bytes[..w];
  }

  /** One pass: read a chunk from the pipe, write it to the file. */
  method SplicePass(pipe: Pipe, file: File, off: nat, buffer: array<Byte>, chunk: nat,
                    ghost data0: seq<Byte>, ghost start: nat)
    returns (pass: Pass)
    requires chunk <= buffer.Length && off == start + |pipe.taken|
    requires Landed(data0, start, file.data, pipe.taken, |pipe.taken|)
    modifies pipe`taken, pipe`readLog, file`data, file`writeLog, buffer
    ensures Explained(pass, chunk, old(pipe.readLog), pipe.readLog, old(file.writeLog), file.writeLog)
    ensures
      var w := match pass case Short(w) => w case Full(w) => w case _ => 0;
      && Landed(data0, start, file.data, pipe.taken, |old(pipe.taken)| + w)
      && |pipe.taken| <= |old(pipe.taken)| + chunk
      && (pass.Full? ==> w > 0 && |pipe.taken| == |old(pipe.taken)| + w)
      && (pass.AtEnd? ==> |pipe.taken| == |old(pipe.taken)|)
  {
    ghost var before, data := pipe.taken, file.data;
    var got := pipe.Read(buffer, chunk);
    if got.None? {
      return Failed;
    }
    var bytes := buffer[..got.value];
    if |bytes| == 0 {
      assert before + bytes == before;
      return AtEnd;
    }
    var put := file.WriteAt(off, bytes);
    var w := if put.None? then 0 else put.value;
    assert bytes[..0] == [];
    LandedMore(data0, start, data, file.data, before, bytes, w);
    pass := if put.None? then Failed else if w < |bytes| then Short(w) else Full(w);
  }

  /** The loop of `splice_pipe_to_file`. */
  method SpliceLoop(pipe: Pipe, file: File, off: nat, len: nat) returns (r: Option<nat>, off': nat)
    requires pipe.taken == []
    modifies pipe, file`data, file`writeLog
    ensures r.None? ==> FailedSince(old(pipe.readLog), pipe.readLog) || FailedSince(old(file.writeLog), file.writeLog)
    ensures r.Some? && r.value < len ==>
      || (|old(pipe.hints)| < |pipe.hints| && Last(pipe.hints) == 0)
      || EmptySince(old(pipe.readLog), pipe.readLog) || ShortSince(old(file.writeLog), file.writeLog)
    ensures off <= off' && |pipe.taken| <= off' - off + DEFAULT_BUFFER_SIZE && |pipe.taken| <= len
    ensures Landed(old(file.data), off, file.data, pipe.taken, off' - off)
    ensures r.Some? ==> r.value == off' - off
  {
    off' := off;
    var buffer := new Byte[Min(DEFAULT_BUFFER_SIZE, len)](_ => 0);
    var remaining, total := len, 0;
    while remaining > 0
      invariant total + remaining == len && remaining >= 0 && off' == off + total && total == |pipe.taken|
      invariant Landed(old(file.data), off, file.data, pipe.taken, total)
      invariant |old(pipe.readLog)| <= |pipe.readLog| && |old(file.writeLog)| <= |file.writeLog|
      invariant |old(pipe.hints)| <= |pipe.hints|
      decreases remaining
    {
      var available := pipe.Available();
      if available == 0 {
        break;
      }
      var chunk := Min(Min(DEFAULT_BUFFER_SIZE, remaining), available);
      var pass := SplicePass(pipe, file, off', buffer, chunk, old(file.data), off);
      match pass {
        case Failed => return None, off';
        case AtEnd => break;
        case Short(w) => return Some(total + w), off' + w;
        case Full(w) => off', total, remaining := off' + w, total + w, remaining - w;
      }
    }
    r := Some(total);
  }

  /** `splice_pipe_to_file`: the file receives, contiguously from the offset, what
      came out of the pipe, and no other byte changes; only the tail of a final short
      write is dropped.  It fails only when a transfer has failed, and stops before
      `len` only when the pipe had no data or the file took less than it was given. */
  method SplicePipeToFile(pipe: Pipe, file: File, off: nat, len: nat) returns (r: Option<nat>, off': nat)
    requires pipe.taken == []
    modifies pipe, file`data, file`writeLog
    ensures r.None? ==> FailedSince(old(pipe.readLog), pipe.readLog) || FailedSince(old(file.writeLog), file.writeLog)
    ensures r.Some? && r.value < len ==>
      || (|old(pipe.hints)| < |pipe.hints| && Last(pipe.hints) == 0)
      || EmptySince(old(pipe.readLog), pipe.readLog) || ShortSince(old(file.writeLog), file.writeLog)
    ensures off <= off' <= off + |pipe.taken| && |pipe.taken| <= off' - off + DEFAULT_BUFFER_SIZE
    ensures |pipe.taken| <= len
    ensures Stored(old(file.data), off, pipe.taken[..off' - off], file.data)
    ensures r.Some? ==> r.value == off' - off
  {
    r, off' := SpliceLoop(pipe, file, off, len);
  }

  /** The pipe has been given what the file holds from `off`, of which `read`
      bytes have been read. */
  ghost predicate Given(data: seq<Byte>, off: nat, given: seq<Byte>, read: nat) {
    && |given| <= read && (read > 0 ==> off + read <= |data|)
    && given == Slice(data, off, |given|)
  }

  lemma GivenMore(data: seq<Byte>, off: nat, given: seq<Byte>, bytes: seq<Byte>, w: nat)
    requires Given(data, off, given, |given|) && w <= |bytes| && bytes != []
    requires off + |given| + |bytes| <= |data| && bytes == Slice(data, off + |given|, |bytes|)
    ensures Given(data, off, given + bytes[..w], |given| + |bytes|)
  {
    var a, b, c := SliceParts(data, off, |given|, |bytes|, w);
    assert given + bytes[..w] == c && |c| == |given| + w;
  }

  /** One pass: read a chunk from the file, write it to the pipe. */
  method GivePass(file: File, pipe: Pipe, off: nat, buffer: array<Byte>, chunk: nat, ghost start: nat)
    returns (pass: Pass, k: nat)
    requires chunk <= buffer.Length && off == start + |pipe.given|
    requires Given(file.data, start, pipe.given, |pipe.given|)
    modifies pipe`given, pipe`writeLog, file`readLog, buffer
    ensures Explained(pass, chunk, old(file.readLog), file.readLog, old(pipe.writeLog), pipe.writeLog)
    ensures
      var w := match pass case Short(w) => w case Full(w) => w case _ => 0;
      && Given(file.data, start, pipe.given, |old(pipe.given)| + k)
      && |pipe.given| == |old(pipe.given)| + w && k <= chunk
      && (pass.Full? ==> w > 0 && w == k)
      && (pass.AtEnd? ==> k == 0)
  {
    k := 0;
    var got := file.ReadAt(off, buffer, chunk);
    if got.None? {
      return Failed, k;
    }
    k := got.value;
    if k == 0 {
      return AtEnd, k;
    }
    var bytes := buffer[..k];
    ghost var before := pipe.given;
    var put := pipe.Write(bytes);
    var w := if put.None? then 0 else put.value;
    GivenMore(file.data, start, before, bytes, w);
    assert before + bytes[..0] == before;
    pass := if put.None? then Failed else if w < k then Short(w) else Full(w);
  }

  /** `splice_file_to_pipe`: the pipe is given exactly the bytes of the file from
      the offset; the offset is ahead only by the tail of a final short write.  It fails
      only when a transfer has failed, and stops before `len` only at the end of the
      file, or when it had nothing to give or the pipe took less than it was given. */
  method SpliceFileToPipe(file: File, pipe: Pipe, off: nat, len: nat)
    returns (r: Option<nat>, off': nat)
    requires pipe.given == []
    modifies pipe, file`readLog
    ensures r.None? ==> FailedSince(old(file.readLog), file.readLog) || FailedSince(old(pipe.writeLog), pipe.writeLog)
    ensures r.Some? && r.value < len ==>
      || off' >= |file.data|
      || EmptySince(old(file.readLog), file.readLog) || ShortSince(old(pipe.writeLog), pipe.writeLog)
    ensures off <= off' <= off + len && off' - off <= |pipe.given| + DEFAULT_BUFFER_SIZE
    ensures Given(file.data, off, pipe.given, off' - off)
    ensures r.Some? ==> r.value == |pipe.given|
  {
    off' := off;
    var buffer := new Byte[Min(DEFAULT_BUFFER_SIZE, len)](_ => 0);
    var remaining, total := len, 0;
    while remaining > 0
      invariant total + remaining == len && remaining >= 0 && off' == off + total && total == |pipe.given|
      invariant Given(file.data, off, pipe.given, total)
      invariant |old(file.readLog)| <= |file.readLog| && |old(pipe.writeLog)| <= |pipe.writeLog|
      decreases remaining
    {
      if off' >= |file.data| {
        break;
      }
      var pass, k := GivePass(file, pipe, off', buffer, Min(DEFAULT_BUFFER_SIZE, remaining), off);
      match pass {
        case Failed => return None, off' + k;
        case AtEnd => break;
        case Short(w) => return Some(total + w), off' + k;
        case Full(w) => off', total, remaining := off' + k, total + w, remaining - w;
      }
    }
    r := Some(total);
  }

  // ---------------------------------------------------------- readv and writev

  function Concat(bs: seq<seq<Byte>>): (s: seq<Byte>) {
    if bs == [] then [] else Concat(bs[..|bs| - 1]) + bs[|bs| - 1]
  }

  /** The buffers are filled one after the other with one run of the file. */
  ghost predicate Filled(filled: seq<seq<Byte>>, data: seq<Byte>, start: nat, ret: nat) {
    && ret == |Concat(filled)| && Concat(filled) == Slice(data, start, ret)
    && (ret > 0 ==> start + ret <= |data|)
  }

  lemma FilledMore(filled: seq<seq<Byte>>, data: seq<Byte>, start: nat, ret: nat, bytes: seq<Byte>)
    requires Filled(filled, data, start, ret) && bytes == Slice(data, start + ret, |bytes|)
    requires |bytes| > 0 ==> start + ret + |bytes| <= |data|
    ensures Filled(filled + [bytes], data, start, ret + |bytes|)
  {
    ConcatSnoc(filled, bytes);
    if |bytes| > 0 {
      SliceMore(data, start, ret, |bytes|);
    } else {
      assert bytes == [];
    }
  }

  ghost predicate AllFull(filled: seq<seq<Byte>>, lens: seq<nat>) {
    |filled| <= |lens| && forall i :: 0 <= i < |filled| ==> |filled[i]| == lens[i]
  }

  /** Every buffer touched is full, except perhaps the last. */
  ghost predicate NoGap(filled: seq<seq<Byte>>, lens: seq<nat>) {
    && |filled| <= |lens|
    && (filled != [] ==> AllFull(filled[..|filled| - 1], lens) && |filled[|filled| - 1]| <= lens[|filled| - 1])
  }

  lemma NoGapSnoc(filled: seq<seq<Byte>>, bytes: seq<Byte>, lens: seq<nat>)
    requires AllFull(filled, lens) && |filled| < |lens| && |bytes| <= lens[|filled|]
    ensures NoGap(filled + [bytes], lens)
    ensures AllFull(filled + [bytes], lens) <==> |bytes| == lens[|filled|]
  {
    var all, n := filled + [bytes], |filled|;
    assert all[..n] == filled && all[n] == bytes;
    if |bytes| == lens[n] {
      forall i | 0 <= i < |all| ensures |all[i]| == lens[i] {
        assert i < n ==> all[i] == filled[i];
      }
    } else {
      assert |all[n]| != lens[n];
    }
  }

  /** Where the loop of `readv` stands: all buffers so far full, unless it has
      just come up short. */
  ghost predicate ReadSoFar(filled: seq<seq<Byte>>, lens: seq<nat>, data: seq<Byte>, start: nat, total: nat,
                            short: bool) {
    Filled(filled, data, start, total) && NoGap(filled, lens) && (short <==> !AllFull(filled, lens))
  }

  lemma ReadMore(filled: seq<seq<Byte>>, lens: seq<nat>, data: seq<Byte>, start: nat, total: nat, bytes: seq<Byte>,
                 filled': seq<seq<Byte>>, total': nat, short: bool)
    requires filled' == filled + [bytes] && total' == total + |bytes|
    requires ReadSoFar(filled, lens, data, start, total, false) && |filled| < |lens| && |bytes| <= lens[|filled|]
    requires bytes == Slice(data, start + total, |bytes|) && (|bytes| > 0 ==> start + total + |bytes| <= |data|)
    requires short <==> |bytes| < lens[|filled|]
    ensures ReadSoFar(filled', lens, data, start, total', short)
  {
    FilledMore(filled, data, start, total, bytes);
    NoGapSnoc(filled, bytes, lens);
  }

  /** `readv`: fills the buffers in order until one read comes up short.  The
      bytes form one run of the file, and no buffer is left with a gap before the
      last one touched: it is one `read` of `ret` bytes into the buffers end to
      end.  It fails only for too many buffers or a failed read, and leaves buffers
      unfilled only after a read that came up short. */
  method Readv(file: File, lens: seq<nat>) returns (r: Option<nat>, filled: seq<seq<Byte>>, ghost ret: nat)
    modifies file`pos, file`readLog
    ensures |lens| > MAX_IOV ==> r == None && filled == []
    ensures r.None? ==> |lens| > MAX_IOV || FailedSince(old(file.readLog), file.readLog)
    ensures r.Some? && !(|filled| == |lens| && AllFull(filled, lens)) ==> ShortSince(old(file.readLog), file.readLog)
    ensures Filled(filled, file.data, old(file.pos), ret) && NoGap(filled, lens)
    ensures file.pos == old(file.pos) + ret
    ensures r.Some? ==> r.value == ret
    ensures r.Some? && |filled| < |lens| ==> !AllFull(filled, lens)
  {
    if |lens| > MAX_IOV {
      return None, [], 0;
    }
    var ok, total, short;
    ok, filled, total, short := ReadAll(file, lens);
    r, ret := if ok then Some(total) else None, total;
  }

  /** One pass of the loop of `readv`. */
  method ReadNext(file: File, lens: seq<nat>, filled: seq<seq<Byte>>, total: nat, ghost start: nat)
    returns (ok: bool, filled': seq<seq<Byte>>, total': nat, short: bool)
    requires |filled| < |lens| && file.pos == start + total
    requires ReadSoFar(filled, lens, file.data, start, total, false)
    modifies file`pos, file`readLog
    ensures |old(file.readLog)| <= |file.readLog|
    ensures !ok ==> FailedSince(old(file.readLog), file.readLog)
    ensures ok && short ==> ShortSince(old(file.readLog), file.readLog)
    ensures file.pos == start + total' && ReadSoFar(filled', lens, file.data, start, total', short)
    ensures |filled'| == |filled| + if ok then 1 else 0
  {
    var got, bytes := ReadVec(file, lens[|filled|]);
    if !got {
      return false, filled, total, false;
    }
    ok, filled', total', short := true, filled + [bytes], total + |bytes|, |bytes| < lens[|filled|];
    ReadMore(filled, lens, file.data, start, total, bytes, filled', total', short);
  }

  /** The loop of `readv`. */
  method ReadAll(file: File, lens: seq<nat>)
    returns (ok: bool, filled: seq<seq<Byte>>, total: nat, short: bool)
    modifies file`pos, file`readLog
    ensures !ok ==> FailedSince(old(file.readLog), file.readLog)
    ensures ok && short ==> ShortSince(old(file.readLog), file.readLog)
    ensures ReadSoFar(filled, lens, file.data, old(file.pos), total, short)
    ensures file.pos == old(file.pos) + total
    ensures ok && |filled| < |lens| ==> short
  {
    ok, filled, total, short := true, [], 0, false;
    while |filled| < |lens| && !short
      invariant ok && ReadSoFar(filled, lens, file.data, old(file.pos), total, short)
      invariant |old(file.readLog)| <= |file.readLog| && (short ==> ShortSince(old(file.readLog), file.readLog))
      invariant file.pos == old(file.pos) + total
      decreases |lens| - |filled|
    {
      ok, filled, total, short := ReadNext(file, lens, filled, total, old(file.pos));
      if !ok {
        return;
      }
    }
  }

  /** One element of `readv`; an empty buffer is skipped. */
  method ReadVec(file: File, n: nat) returns (ok: bool, bytes: seq<Byte>)
    modifies file`pos, file`readLog
    ensures |old(file.readLog)| <= |file.readLog|
    ensures !ok ==> FailedSince(old(file.readLog), file.readLog)
    ensures ok && |bytes| < n ==> ShortSince(old(file.readLog), file.readLog)
    ensures |bytes| <= n && bytes == Slice(file.data, old(file.pos), |bytes|)
    ensures |bytes| > 0 ==> old(file.pos) + |bytes| <= |file.data|
    ensures file.pos == old(file.pos) + |bytes| && (n == 0 ==> ok) && (!ok ==> bytes == [])
  {
    if n == 0 {
      return true, [];
    }
    var buf := new Byte[n](_ => 0);
    var got := file.Read(buf, n);
    if got.None? {
      return false, [];
    }
    return true, buf[..got.value];
  }

  lemma ConcatSnoc(bs: seq<seq<Byte>>, b: seq<Byte>)
    ensures Concat(bs + [b]) == Concat(bs) + b
  {
    assert (bs + [b])[..|bs|] == bs;
  }

  lemma {:induction false} ConcatPrefix(bs: seq<seq<Byte>>, i: nat)
    requires i <= |bs|
    ensures Concat(bs[..i]) <= Concat(bs)
    decreases |bs|
  {
    if i == |bs| {
      assert bs[..i] == bs;
    } else {
      var init := bs[..|bs| - 1];
      assert init[..i] == bs[..i];
      ConcatPrefix(init, i);
    }
  }

  lemma ConcatUpTo(bufs: seq<seq<Byte>>, i: nat)
    requires i < |bufs|
    ensures Concat(bufs[..i + 1]) == Concat(bufs[..i]) + bufs[i]
    ensures |Concat(bufs[..i])| <= |Concat(bufs)| && Concat(bufs)[..|Concat(bufs[..i])|] == Concat(bufs[..i])
  {
    assert bufs[..i + 1][..i] == bufs[..i];
    ConcatPrefix(bufs, i);
  }

  lemma CutConcat(bufs: seq<seq<Byte>>, i: nat, w: nat)
    requires i < |bufs| && w <= |bufs[i]|
    ensures |Concat(bufs[..i])| + w <= |Concat(bufs)|
    ensures Concat(bufs)[..|Concat(bufs[..i])| + w] == Concat(bufs[..i]) + bufs[i][..w]
  {
    ConcatUpTo(bufs, i);
    ConcatPrefix(bufs, i + 1);
    var a, b := Concat(bufs[..i]), Concat(bufs[..i + 1]);
    assert Concat(bufs)[..|b|] == b;
    assert Concat(bufs)[..|a| + w] == b[..|a| + w];
  }

  /** The first `ret` bytes of the buffers end to end have been written. */
  ghost predicate Wrote(data0: seq<Byte>, start: nat, bufs: seq<seq<Byte>>, data: seq<Byte>, ret: nat) {
    ret <= |Concat(bufs)| && Stored(data0, start, Concat(bufs)[..ret], data)
  }

  lemma WroteMore(data0: seq<Byte>, start: nat, bufs: seq<seq<Byte>>, i: nat, data: seq<Byte>, data': seq<Byte>, w: nat)
    requires i < |bufs| && w <= |bufs[i]| && Wrote(data0, start, bufs, data, |Concat(bufs[..i])|)
    requires Stored(data, start + |Concat(bufs[..i])|, bufs[i][..w], data')
    ensures Wrote(data0, start, bufs, data', |Concat(bufs[..i])| + w)
    ensures w == |bufs[i]| ==> |Concat(bufs[..i])| + w == |Concat(bufs[..i + 1])|
  {
    var a := Concat(bufs[..i]);
    ConcatUpTo(bufs, i);
    CutConcat(bufs, i, w);
    StoredTwice(data0, start, a, bufs[i][..w], data, data');
  }

  /** One pass of the loop of `writev`; an empty buffer is skipped. */
  method WriteVec(file: File, bufs: seq<seq<Byte>>, i: nat, ghost data0: seq<Byte>, ghost start: nat)
    returns (ok: bool, w: nat)
    requires i < |bufs| && Wrote(data0, start, bufs, file.data, |Concat(bufs[..i])|)
    requires file.pos == start + |Concat(bufs[..i])|
    modifies file`data, file`pos, file`writeLog
    ensures |old(file.writeLog)| <= |file.writeLog|
    ensures !ok ==> FailedSince(old(file.writeLog), file.writeLog)
    ensures ok && w < |bufs[i]| ==> ShortSince(old(file.writeLog), file.writeLog)
    ensures w <= |bufs[i]| && Wrote(data0, start, bufs, file.data, |Concat(bufs[..i])| + w)
    ensures file.pos == start + |Concat(bufs[..i])| + w
    ensures w == |bufs[i]| ==> |Concat(bufs[..i])| + w == |Concat(bufs[..i + 1])|
    ensures !ok ==> w == 0
  {
    if |bufs[i]| == 0 {
      WroteMore(data0, start, bufs, i, file.data, file.data, 0);
      return true, 0;
    }
    ghost var before := file.data;
    var put := file.Write(bufs[i]);
    w := if put.None? then 0 else put.value;
    WroteMore(data0, start, bufs, i, before, file.data, w);
    ok := put.Some?;
  }

  /** `writev`: the file receives the first `ret` bytes of the buffers end to end.  It
      fails only for too many buffers or a failed write, and leaves bytes unwritten
      only after a write that came up short. */
  method Writev(file: File, bufs: seq<seq<Byte>>) returns (r: Option<nat>, ghost ret: nat)
    modifies file`data, file`pos, file`writeLog
    ensures |bufs| > MAX_IOV ==> r == None && ret == 0
    ensures r.None? ==> |bufs| > MAX_IOV || FailedSince(old(file.writeLog), file.writeLog)
    ensures r.Some? && r.value < |Concat(bufs)| ==> ShortSince(old(file.writeLog), file.writeLog)
    ensures Wrote(old(file.data), old(file.pos), bufs, file.data, ret)
    ensures Arrived(old(file.data), old(file.pos), Concat(bufs)[..ret], file.data)
    ensures file.pos == old(file.pos) + ret
    ensures r.Some? ==> r.value == ret
    ensures r.Some? && |bufs| <= MAX_IOV ==> ret == |Concat(bufs)| || Stopped(bufs, ret)
  {
    ret := 0;
    if |bufs| > MAX_IOV {
      return None, ret;
    }
    var total := 0;
    for i := 0 to |bufs|
      invariant ret == total == |Concat(bufs[..i])|
      invariant Wrote(old(file.data), old(file.pos), bufs, file.data, total) && file.pos == old(file.pos) + total
      invariant |old(file.writeLog)| <= |file.writeLog|
    {
      var ok, w := WriteVec(file, bufs, i, old(file.data), old(file.pos));
      total := total + w;
      ret := total;
      StoredMeans(old(file.data), old(file.pos), Concat(bufs)[..ret], file.data);
      if !ok {
        return None, ret;
      }
      if w < |bufs[i]| {
        assert Stopped(bufs, ret);
        return Some(total), ret;
      }
    }
    assert bufs[..|bufs|] == bufs;
    StoredMeans(old(file.data), old(file.pos), Concat(bufs)[..ret], file.data);
    r := Some(total);
  }

  /** A short write stops inside a buffer. */
  ghost predicate Stopped(bufs: seq<seq<Byte>>, ret: nat) {
    exists i :: 0 <= i < |bufs| && |Concat(bufs[..i])| <= ret < |Concat(bufs[..i])| + |bufs[i]|
  }
}
