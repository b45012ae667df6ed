/**
 The packed directory records of `getdents64`.

 A record is a 24-byte header (inode, offset, a 16-bit record length, a type,
 padding) overlaid from byte 19 by the name and a NUL, rounded up to a multiple
 of 8.  `Decode` is the reader's side, as C libraries walk such a buffer: step by
 `d_reclen`, take the name up to the NUL.
 */
module DirRecords {
  import opened Common

  datatype Entry = Entry(kind: Byte, name: seq<Byte>)

  const NAME_OFFSET: nat := 19
  const HEADER_SIZE: nat := 24
  const ALIGN: nat := 8
  const RECLEN_LIMIT: nat := 65536

  /** Inode 1 and offset 0, each in eight bytes with the low one first. */
  const LEADER: seq<Byte> := [1, 0, 0, 0, 0, 0, 0, 0, 0, 0, 0, 0, 0, 0, 0, 0]

  /** A little-endian 16-bit field. */
  function Le16(lo: int, hi: int): int {
    lo + 256 * hi
  }

  /** `(NAME_OFFSET + len + 1).next_multiple_of(8)`. */
  function RecLen(n: nat): (len: nat)
    ensures len % ALIGN == 0 && NAME_OFFSET + n + 1 <= len < NAME_OFFSET + n + 1 + ALIGN
    ensures len >= HEADER_SIZE
  {
    (NAME_OFFSET + n + 1 + ALIGN - 1) / ALIGN * ALIGN
  }

  /** A name that survives the trip: no NUL, and a length field that fits. */
  predicate Portable(e: Entry) {
    0 !in e.name && RecLen(|e.name|) < RECLEN_LIMIT
  }

  /** The bytes of one record: inode and offset, `d_reclen` modulo 65536, the type,
      the name and a NUL.  What lies between the NUL and the end is unspecified. */
  ghost predicate IsRecord(rec: seq<Byte>, e: Entry) {
    && |rec| == RecLen(|e.name|)
    && rec[..16] == LEADER
    && Le16(rec[16], rec[17]) == |rec| % RECLEN_LIMIT
    && rec[18] == e.kind
    && rec[NAME_OFFSET..NAME_OFFSET + |e.name|] == e.name
    && rec[NAME_OFFSET + |e.name|] == 0
  }

  /** A buffer filled with the records of `es`, one after another. */
  ghost predicate Packed(bs: seq<Byte>, es: seq<Entry>) {
    if es == [] then bs == []
    else
      var n := RecLen(|es[0].name|);
      n <= |bs| && IsRecord(bs[..n], es[0]) && Packed(bs[n..], es[1..])
  }

  function UpToNul(bs: seq<Byte>): (r: Option<seq<Byte>>) {
    if bs == [] then None
    else if bs[0] == 0 then Some([])
    else match UpToNul(bs[1..])
      case None => None
      case Some(s) => Some([bs[0]] + s)
  }

  /** The entry at the front of a buffer and the length of its record. */
  function DecodeHead(bs: seq<Byte>): (r: Option<(Entry, nat)>)
    ensures r.Some? ==> HEADER_SIZE <= r.value.1 <= |bs|
  {
    if |bs| < HEADER_SIZE then None
    else
      var len := Le16(bs[16], bs[17]);
      if len < HEADER_SIZE || len > |bs| then None
      else match UpToNul(bs[NAME_OFFSET..len])
        case None => None
        case Some(name) => Some((Entry(bs[18], name), len))
  }

  function Decode(bs: seq<Byte>): (r: Option<seq<Entry>>)
    decreases |bs|
  {
    if bs == [] then Some([])
    else match DecodeHead(bs)
      case None => None
      case Some((e, len)) =>
        match Decode(bs[len..])
        case None => None
        case Some(rest) => Some([e] + rest)
  }

  lemma {:induction false} NameFound(bs: seq<Byte>, n: nat)
    requires n < |bs| && bs[n] == 0 && 0 !in bs[..n]
    ensures UpToNul(bs) == Some(bs[..n])
  {
    if n > 0 {
      assert bs[1..][..n - 1] == bs[1..n];
      assert forall b :: b in bs[1..n] ==> b in bs[..n];
      NameFound(bs[1..], n - 1);
      assert bs[..n] == [bs[0]] + bs[1..n];
    }
  }

  lemma {:induction false} NameHasNoNul(bs: seq<Byte>)
    ensures UpToNul(bs).Some? ==> 0 !in UpToNul(bs).value
  {
    if bs != [] {
      NameHasNoNul(bs[1..]);
    }
  }

  lemma {:induction false} DecodeNonEmpty(bs: seq<Byte>)
    ensures bs != [] && Decode(bs).Some? ==> Decode(bs).value != []
  {
  }

  lemma RecordName(rec: seq<Byte>, e: Entry)
    requires IsRecord(rec, e) && Portable(e)
    ensures UpToNul(rec[NAME_OFFSET..|rec|]) == Some(e.name)
  {
    var tail := rec[NAME_OFFSET..];
    assert rec[NAME_OFFSET..|rec|] == tail;
    assert tail[..|e.name|] == e.name;
    assert tail[|e.name|] == rec[NAME_OFFSET + |e.name|];
    NameFound(tail, |e.name|);
  }

  lemma HeadFound(bs: seq<Byte>, e: Entry)
    requires Portable(e) && RecLen(|e.name|) <= |bs| && IsRecord(bs[..RecLen(|e.name|)], e)
    ensures DecodeHead(bs) == Some((e, RecLen(|e.name|)))
  {
    var n := RecLen(|e.name|);
    var rec := bs[..n];
    RecordName(rec, e);
    assert bs[NAME_OFFSET..n] == rec[NAME_OFFSET..|rec|];
    assert bs[16] == rec[16] && bs[17] == rec[17] && bs[18] == rec[18];
    assert Le16(bs[16], bs[17]) == n;
    assert UpToNul(bs[NAME_OFFSET..n]) == Some(e.name);
  }

  /** Decoding undoes packing. */
  lemma {:induction false} DecodeUndoesPacking(bs: seq<Byte>, es: seq<Entry>)
    requires Packed(bs, es) && forall i :: 0 <= i < |es| ==> Portable(es[i])
    ensures Decode(bs) == Some(es)
  {
    if es != [] {
      var n := RecLen(|es[0].name|);
      DecodeUndoesPacking(bs[n..], es[1..]);
      HeadFound(bs, es[0]);
      assert es == [es[0]] + es[1..];
    }
  }

  /** A single record decodes to its entry exactly when the name is free of NULs
      and short enough for the 16-bit length. */
  lemma RoundTripIsExact(rec: seq<Byte>, e: Entry)
    requires IsRecord(rec, e)
    ensures Decode(rec) == Some([e]) <==> Portable(e)
  {
    if Portable(e) {
      assert rec[..|rec|] == rec && rec[|rec|..] == [];
      assert Packed(rec, [e]);
      DecodeUndoesPacking(rec, [e]);
    } else if RecLen(|e.name|) < RECLEN_LIMIT {
      NameHasNoNul(rec[NAME_OFFSET..|rec|]);
      HeadDiffers(rec, e, |rec|);
    } else {
      TailRemains(rec, Le16(rec[16], rec[17]));
    }
  }

  /** A head whose name has no NUL is not an entry whose name has one. */
  lemma HeadDiffers(rec: seq<Byte>, e: Entry, len: nat)
    requires HEADER_SIZE <= len == |rec| && Le16(rec[16], rec[17]) == len && 0 in e.name
    requires UpToNul(rec[NAME_OFFSET..len]).Some? ==> 0 !in UpToNul(rec[NAME_OFFSET..len]).value
    ensures Decode(rec) != Some([e])
  {
    var head := DecodeHead(rec);
    if head.Some? && Decode(rec).Some? {
      assert Decode(rec).value[0] == head.value.0;
      assert 0 !in Decode(rec).value[0].name;
    }
  }

  /** A length field that is too small leaves more to decode, or does not decode. */
  lemma TailRemains(rec: seq<Byte>, len: nat)
    requires HEADER_SIZE <= |rec| && len == Le16(rec[16], rec[17]) < |rec|
    ensures Decode(rec).Some? ==> |Decode(rec).value| > 1
  {
    if Decode(rec).Some? {
      DecodeNonEmpty(rec[len..]);
    }
  }

  lemma CutAppended<T>(s: seq<T>, t: seq<T>, n: nat)
    requires n <= |s|
    ensures (s + t)[..n] == s[..n] && (s + t)[n..] == s[n..] + t
  {
  }

  lemma {:induction false} PackedAppend(bs: seq<Byte>, es: seq<Entry>, rec: seq<Byte>, e: Entry,
                                        bs': seq<Byte>, es': seq<Entry>)
    requires Packed(bs, es) && IsRecord(rec, e) && bs' == bs + rec && es' == es + [e]
    ensures Packed(bs', es')
    decreases |es|
  {
    if es == [] {
      assert bs' == rec && bs'[..|rec|] == rec && bs'[|rec|..] == [];
    } else {
      var n := RecLen(|es[0].name|);
      CutAppended(bs, rec, n);
      CutAppended(es, [e], 1);
      PackedAppend(bs[n..], es[1..], rec, e, bs'[n..], es'[1..]);
    }
  }

  /** Every record of a packed buffer starts at a multiple of 8. */
  function TotalLen(es: seq<Entry>): (n: nat)
    ensures n % ALIGN == 0
  {
    if es == [] then 0 else RecLen(|es[0].name|) + TotalLen(es[1..])
  }

  lemma {:induction false} PackedLength(bs: seq<Byte>, es: seq<Entry>)
    requires Packed(bs, es)
    ensures |bs| == TotalLen(es)
  {
    if es != [] {
      PackedLength(bs[RecLen(|es[0].name|)..], es[1..]);
    }
  }

  // ---------------------------------------------------------------- DirBuffer

  /** What a raw write of the header struct stores: inode 1, offset 0, the length
      modulo 65536, the type, and five bytes of padding. */
  function Header(len: nat, kind: Byte, padding: seq<Byte>): (h: seq<Byte>)
    requires |padding| == HEADER_SIZE - NAME_OFFSET
  {
    LEADER + [len % 256, len / 256 % 256, kind] + padding
  }

  lemma LengthField(len: nat)
    ensures Le16(len % 256, len / 256 % 256) == len % RECLEN_LIMIT
  {
    var q := len / 256;
    assert len == 256 * q + len % 256;
    assert q == 256 * (q / 256) + q % 256;
    assert len == RECLEN_LIMIT * (q / 256) + 256 * (q % 256) + len % 256;
  }

  function Overlay(s: seq<Byte>, at: nat, bytes: seq<Byte>): (r: seq<Byte>)
    requires at + |bytes| <= |s|
    ensures |r| == |s|
  {
    seq(|s|, i requires 0 <= i < |s| => if at <= i < at + |bytes| then bytes[i - at] else s[i])
  }

  /** `after` is `before` with one record stored at `at` and nothing else changed. */
  ghost predicate Added(before: seq<Byte>, after: seq<Byte>, at: nat, e: Entry) {
    var end := at + RecLen(|e.name|);
    && |after| == |before| && end <= |before|
    && after[..at] == before[..at] && after[end..] == before[end..]
    && IsRecord(after[at..end], e)
  }

  /** The three raw stores of `write_entry`: header, name, NUL. */
  function Stores(s: seq<Byte>, at: nat, h: seq<Byte>, name: seq<Byte>): (r: seq<Byte>)
    requires |h| == HEADER_SIZE && at + RecLen(|name|) <= |s|
    ensures |r| == |s|
  {
    Overlay(Overlay(Overlay(s, at, h), at + NAME_OFFSET, name), at + NAME_OFFSET + |name|, [0])
  }

  lemma StoresAt(s: seq<Byte>, at: nat, h: seq<Byte>, name: seq<Byte>, i: nat)
    requires |h| == HEADER_SIZE && at + RecLen(|name|) <= |s| && i < |s|
    ensures
      var r := Stores(s, at, h, name);
      && (i < at || i >= at + RecLen(|name|) ==> r[i] == s[i])
      && (at <= i < at + NAME_OFFSET ==> r[i] == h[i - at])
      && (at + NAME_OFFSET <= i < at + NAME_OFFSET + |name| ==> r[i] == name[i - at - NAME_OFFSET])
      && (i == at + NAME_OFFSET + |name| ==> r[i] == 0)
  {
  }

  /** Together they make one record and touch nothing else. */
  lemma StoresMakeRecord(s: seq<Byte>, at: nat, kind: Byte, padding: seq<Byte>, name: seq<Byte>)
    requires |padding| == HEADER_SIZE - NAME_OFFSET && at + RecLen(|name|) <= |s|
    ensures Added(s, Stores(s, at, Header(RecLen(|name|), kind, padding), name), at, Entry(kind, name))
  {
    var len := RecLen(|name|);
    var h := Header(len, kind, padding);
    var r := Stores(s, at, h, name);
    forall i: nat | i < |s|
      ensures i < at || i >= at + len ==> r[i] == s[i]
      ensures at <= i < at + NAME_OFFSET ==> r[i] == h[i - at]
      ensures at + NAME_OFFSET <= i < at + NAME_OFFSET + |name| ==> r[i] == name[i - at - NAME_OFFSET]
      ensures i == at + NAME_OFFSET + |name| ==> r[i] == 0
    {
      StoresAt(s, at, h, name, i);
    }
    assert r[..at] == s[..at];
    assert r[at + len..] == s[at + len..];
    SliceIsRecord(r, at, len, kind, padding, name);
  }

  lemma SliceIsRecord(r: seq<Byte>, at: nat, len: nat, kind: Byte, padding: seq<Byte>, name: seq<Byte>)
    requires len == RecLen(|name|) && |padding| == HEADER_SIZE - NAME_OFFSET && at + len <= |r|
    requires forall i :: at <= i < at + NAME_OFFSET ==> r[i] == Header(len, kind, padding)[i - at]
    requires forall i :: at + NAME_OFFSET <= i < at + NAME_OFFSET + |name| ==> r[i] == name[i - at - NAME_OFFSET]
    requires r[at + NAME_OFFSET + |name|] == 0
    ensures IsRecord(r[at..at + len], Entry(kind, name))
  {
    LengthField(len);
    var rec := r[at..at + len];
    assert rec[..16] == LEADER by {
      forall i | 0 <= i < 16 ensures rec[i] == LEADER[i] {
        assert rec[i] == r[at + i];
      }
    }
    assert rec[16] == r[at + 16] && rec[17] == r[at + 17] && rec[18] == r[at + 18];
    forall k | 0 <= k < |name| ensures rec[NAME_OFFSET..NAME_OFFSET + |name|][k] == name[k] {
      assert rec[NAME_OFFSET + k] == r[at + NAME_OFFSET + k];
    }
    assert rec[NAME_OFFSET..NAME_OFFSET + |name|] == name;
  }

  class DirBuffer {
    const buf: array<Byte>
    var offset: nat

    ghost predicate Valid()
      reads this
    {
      offset <= buf.Length && offset % ALIGN == 0
    }

    constructor (buf: array<Byte>)
      ensures Valid() && this.buf == buf && offset == 0
    {
      this.buf := buf;
      offset := 0;
    }

    /** A raw store; the precondition is that it stays inside the buffer. */
    method Store(at: nat, bytes: seq<Byte>)
      requires at + |bytes| <= buf.Length
      modifies buf
      ensures buf[..] == Overlay(old(buf[..]), at, bytes)
    {
      for i := 0 to |bytes|
        invariant buf[..] == Overlay(old(buf[..]), at, bytes[..i])
      {
        buf[at + i] := bytes[i];
      }
    }

    /** The unsafe block of `write_entry`; padding bytes are unspecified. */
    method StoreRecord(at: nat, kind: Byte, name: seq<Byte>)
      requires at + RecLen(|name|) <= buf.Length
      modifies buf
      ensures Added(old(buf[..]), buf[..], at, Entry(kind, name))
    {
      ghost var some: seq<Byte> := [0, 0, 0, 0, 0];
      assert |some| == HEADER_SIZE - NAME_OFFSET;
      var padding: seq<Byte> :| |padding| == HEADER_SIZE - NAME_OFFSET;
      var h := Header(RecLen(|name|), kind, padding);
      ghost var before := buf[..];
      StoresMakeRecord(before, at, kind, padding, name);
      Store(at, h);
      Store(at + NAME_OFFSET, name);
      Store(at + NAME_OFFSET + |name|, [0]);
      assert buf[..] == Stores(before, at, h, name);
    }

    /** `write_entry`: all of the record or nothing. */
    method WriteEntry(kind: Byte, name: seq<Byte>) returns (ok: bool)
      requires Valid()
      modifies this`offset, buf
      ensures Valid()
      ensures ok <==> RecLen(|name|) <= buf.Length - old(offset)
      ensures !ok ==> offset == old(offset) && buf[..] == old(buf[..])
      ensures ok ==>
        offset == old(offset) + RecLen(|name|) && Added(old(buf[..]), buf[..], old(offset), Entry(kind, name))
    {
      var len := RecLen(|name|);
      if buf.Length - offset < len {
        return false;
      }
      StoreRecord(offset, kind, name);
      offset := offset + len;
      return true;
    }
  }
}
