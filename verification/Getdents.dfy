/**
 `getdents64`: as many directory entries as fit, the first one that does not fit
 kept for the next call.  Over any sequence of calls every entry is delivered
 once and in order.
 */
module Getdents {
  import opened Common
  import opened DirRecords

  datatype DirResult = Ok(n: nat) | EINVAL

  /** How many of the entries fit into `room` bytes, greedily from the front. */
  function Fits(es: seq<Entry>, room: nat): (k: nat)
    ensures k <= |es|
  {
    if es == [] || RecLen(|es[0].name|) > room then 0
    else 1 + Fits(es[1..], room - RecLen(|es[0].name|))
  }

  lemma {:induction false} FitsGrows(es: seq<Entry>, room: nat, k: nat)
    requires k <= |es| && TotalLen(es[..k]) <= room
    ensures Fits(es, room) == k + Fits(es[k..], room - TotalLen(es[..k]))
  {
    if k == 0 {
      assert es[k..] == es;
    } else {
      var rest := es[1..];
      assert es[..k][1..] == rest[..k - 1] && rest[k - 1..] == es[k..];
      FitsGrows(rest, room - RecLen(|es[0].name|), k - 1);
    }
  }

  /** It is the longest prefix that fits. */
  lemma {:induction false} FitsIsLongest(es: seq<Entry>, room: nat, k: nat)
    requires k <= |es|
    ensures TotalLen(es[..k]) <= room <==> k <= Fits(es, room)
  {
    if k > 0 {
      var n := RecLen(|es[0].name|);
      assert es[..k][0] == es[0] && es[..k][1..] == es[1..][..k - 1];
      if n <= room {
        FitsIsLongest(es[1..], room - n, k - 1);
      }
    }
  }

  lemma {:induction false} TotalLenSnoc(es: seq<Entry>, e: Entry)
    ensures TotalLen(es + [e]) == TotalLen(es) + RecLen(|e.name|)
  {
    if es == [] {
      assert es + [e] == [e];
    } else {
      assert (es + [e])[1..] == es[1..] + [e];
      TotalLenSnoc(es[1..], e);
    }
  }

  /** Having packed `done` and met an entry that does not fit, or the end. */
  lemma StoppedAtFit(all: seq<Entry>, done: seq<Entry>, rest: seq<Entry>, room: nat)
    requires all == done + rest && TotalLen(done) <= room
    requires rest == [] || RecLen(|rest[0].name|) > room - TotalLen(done)
    ensures Fits(all, room) == |done| && all[..|done|] == done
  {
    assert all[..|done|] == done && all[|done|..] == rest;
    FitsGrows(all, room, |done|);
  }

  /** The buffer holds the records of `es` and, behind them, its old bytes. */
  ghost predicate Holding(bytes: seq<Byte>, offset: nat, es: seq<Entry>, orig: seq<Byte>) {
    && |bytes| == |orig| && offset == TotalLen(es) <= |bytes|
    && Packed(bytes[..offset], es)
    && bytes[offset..] == orig[offset..]
  }

  lemma SlicesMeet(before: seq<Byte>, after: seq<Byte>, orig: seq<Byte>, offset: nat, end: nat)
    requires |before| == |after| == |orig| && offset <= end <= |before|
    requires before[offset..] == orig[offset..] && after[end..] == before[end..]
    ensures after[end..] == orig[end..] && after[..offset] + after[offset..end] == after[..end]
  {
    assert before[end..] == before[offset..][end - offset..];
    assert orig[end..] == orig[offset..][end - offset..];
  }

  lemma HoldingMore(before: seq<Byte>, after: seq<Byte>, offset: nat, es: seq<Entry>, e: Entry, orig: seq<Byte>)
    requires Holding(before, offset, es, orig) && Added(before, after, offset, e)
    ensures Holding(after, offset + RecLen(|e.name|), es + [e], orig)
  {
    var end := offset + RecLen(|e.name|);
    TotalLenSnoc(es, e);
    SlicesMeet(before, after, orig, offset, end);
    PackedAppend(after[..offset], es, after[offset..end], e, after[..end], es + [e]);
  }

  lemma HoldingAfter(ok: bool, before: seq<Byte>, after: seq<Byte>, at: nat, at': nat,
                     done: seq<Entry>, ent: Entry, orig: seq<Byte>)
    requires Holding(before, at, done, orig)
    requires if ok then at' == at + RecLen(|ent.name|) && Added(before, after, at, Entry(ent.kind, ent.name))
             else at' == at && after == before
    ensures Holding(after, at', done + if ok then [ent] else [], orig)
  {
    if ok {
      HoldingMore(before, after, at, done, ent, orig);
    } else {
      assert done + [] == done;
    }
  }

  /** One more record behind those of `done`. */
  method PackOne(buffer: DirBuffer, ent: Entry, ghost done: seq<Entry>, ghost orig: seq<Byte>) returns (ok: bool)
    requires buffer.Valid() && Holding(buffer.buf[..], buffer.offset, done, orig)
    modifies buffer`offset, buffer.buf
    ensures buffer.Valid()
    ensures ok <==> RecLen(|ent.name|) <= buffer.buf.Length - old(buffer.offset)
    ensures Holding(buffer.buf[..], buffer.offset, done + if ok then [ent] else [], orig)
  {
    ghost var before := buffer.buf[..];
    ghost var at := buffer.offset;
    ok := buffer.WriteEntry(ent.kind, ent.name);
    HoldingAfter(ok, before, buffer.buf[..], at, buffer.offset, done, ent, orig);
  }

  lemma Advance(done: seq<Entry>, rest: seq<Entry>)
    requires rest != []
    ensures done + rest == (done + [rest[0]]) + rest[1..] == done + ([rest[0]] + rest[1..])
  {
    assert rest == [rest[0]] + rest[1..];
  }

  class Directory {
    var last: Option<Entry>
    var unread: seq<Entry>

    /** What the reader has not been given yet. */
    function Pending(): (es: seq<Entry>)
      reads this
    {
      (match last case None => [] case Some(e) => [e]) + unread
    }

    /** The loop of `getdents64`. */
    method Fill(buffer: DirBuffer, ghost done0: seq<Entry>, ghost orig: seq<Byte>) returns (ghost done: seq<Entry>)
      requires last == None && buffer.Valid() && Holding(buffer.buf[..], buffer.offset, done0, orig)
      modifies this, buffer`offset, buffer.buf
      ensures buffer.Valid() && Holding(buffer.buf[..], buffer.offset, done, orig)
      ensures done0 + old(unread) == done + Pending()
      ensures Pending() == [] || RecLen(|Pending()[0].name|) > buffer.buf.Length - buffer.offset
      ensures last.Some? <==> Pending() != []
    {
      done := done0;
      while unread != []
        invariant last == None && buffer.Valid()
        invariant Holding(buffer.buf[..], buffer.offset, done, orig)
        invariant done0 + old(unread) == done + unread
        decreases |unread|
      {
        var ent := unread[0];
        Advance(done, unread);
        unread := unread[1..];
        var ok := PackOne(buffer, ent, done, orig);
        if !ok {
          assert done + [] == done;
          last := Some(ent);
          return;
        }
        done := done + [ent];
      }
    }

    /** One call with a buffer of any size.  What is delivered is the longest
        prefix of the pending entries that fits; if not even one fits the call
        fails and nothing is lost. */
    method Getdents64(buf: array<Byte>) returns (r: DirResult)
      modifies this, buf
      ensures
        var k := Fits(old(Pending()), buf.Length);
        var es := old(Pending())[..k];
        && (r == EINVAL <==> old(Pending()) != [] && k == 0)
        && old(Pending()) == es + Pending()
        && (r.Ok? ==> Holding(buf[..], r.n, es, old(buf[..])))
        && (r == EINVAL ==> buf[..] == old(buf[..]))
    {
      var buffer := new DirBuffer(buf);
      ghost var all, orig := Pending(), buf[..];
      ghost var done: seq<Entry> := [];
      assert Holding(buf[..], 0, done, orig);
      if last.Some? {
        var ent := last.value;
        last := None;
        var ok := PackOne(buffer, ent, done, orig);
        if !ok {
          last := Some(ent);
          EmptyHolding(buf[..], orig);
          assert all == [] + Pending();
          return EINVAL;
        }
        done := done + [ent];
      }
      assert all == done + unread;
      done := Fill(buffer, done, orig);
      StoppedAtFit(all, done, Pending(), buf.Length);
      if last.Some? && buffer.offset == 0 {
        assert done == [];
        EmptyHolding(buf[..], orig);
        return EINVAL;
      }
      return Ok(buffer.offset);
    }
  }

  lemma EmptyHolding(bytes: seq<Byte>, orig: seq<Byte>)
    requires Holding(bytes, 0, [], orig)
    ensures bytes == orig
  {
    assert bytes[0..] == bytes && orig[0..] == orig;
  }

  // --------------------------------------------------------- sequences of calls

  /** What is still pending after calls with buffers of these sizes, by the
      contract of `Getdents64`: each takes what fits off the front. */
  function Remaining(pending: seq<Entry>, sizes: seq<nat>): (rest: seq<Entry>) {
    if sizes == [] then pending else Remaining(pending[Fits(pending, sizes[0])..], sizes[1..])
  }

  /** The output bytes of such calls: each packs what it delivered; a call that
      fails outputs nothing. */
  ghost predicate Outputs(outs: seq<seq<Byte>>, pending: seq<Entry>, sizes: seq<nat>) {
    && |outs| == |sizes|
    && (sizes != [] ==>
      var k := Fits(pending, sizes[0]);
      Packed(outs[0], pending[..k]) && Outputs(outs[1..], pending[k..], sizes[1..]))
  }

  /** The reader's view: decode every output and put the lists together. */
  function DecodeAll(outs: seq<seq<Byte>>): (r: Option<seq<Entry>>) {
    if outs == [] then Some([])
    else match (Decode(outs[0]), DecodeAll(outs[1..]))
      case (Some(a), Some(b)) => Some(a + b)
      case _ => None
  }

  predicate AllPortable(es: seq<Entry>) {
    forall i :: 0 <= i < |es| ==> Portable(es[i])
  }

  /** Over any sequence of calls, with any buffer sizes, what the reader decodes
      and then what is still pending is the listing: nothing is lost, duplicated
      or reordered. */
  lemma {:induction false} ExactlyOnce(listing: seq<Entry>, sizes: seq<nat>, outs: seq<seq<Byte>>)
    requires Outputs(outs, listing, sizes)
    requires AllPortable(listing)
    ensures DecodeAll(outs).Some?
    ensures DecodeAll(outs).value + Remaining(listing, sizes) == listing
  {
    if sizes != [] {
      var k := Fits(listing, sizes[0]);
      DecodeUndoesPacking(outs[0], listing[..k]);
      ExactlyOnce(listing[k..], sizes[1..], outs[1..]);
      Rejoin(listing, k, DecodeAll(outs[1..]).value, Remaining(listing[k..], sizes[1..]));
    }
  }

  lemma Rejoin(all: seq<Entry>, k: nat, more: seq<Entry>, rest: seq<Entry>)
    requires k <= |all| && more + rest == all[k..]
    ensures (all[..k] + more) + rest == all
  {
    assert (all[..k] + more) + rest == all[..k] + (more + rest);
  }

  function Sizes(bufs: seq<array<Byte>>): (sizes: seq<nat>)
    ensures |sizes| == |bufs|
  {
    if bufs == [] then [] else [bufs[0].Length] + Sizes(bufs[1..])
  }

  /** What one call puts out. */
  method ReadOnce(dir: Directory, buf: array<Byte>) returns (out: seq<Byte>)
    modifies dir, buf
    ensures
      var k := Fits(old(dir.Pending()), buf.Length);
      Packed(out, old(dir.Pending())[..k]) && dir.Pending() == old(dir.Pending())[k..]
  {
    var r := dir.Getdents64(buf);
    match r {
      case Ok(n) => out := buf[..n];
      case EINVAL => out := [];
    }
  }

  /** Any sequence of calls, with buffers that may be the same or different. */
  method ReadMany(dir: Directory, bufs: seq<array<Byte>>) returns (outs: seq<seq<Byte>>)
    modifies dir, set b | b in bufs
    ensures Outputs(outs, old(dir.Pending()), Sizes(bufs))
    ensures dir.Pending() == Remaining(old(dir.Pending()), Sizes(bufs))
    decreases |bufs|
  {
    if bufs == [] {
      return [];
    }
    var out := ReadOnce(dir, bufs[0]);
    var rest := ReadMany(dir, bufs[1..]);
    outs := [out] + rest;
    assert outs[1..] == rest && Sizes(bufs)[1..] == Sizes(bufs[1..]);
  }

  /** The reader's whole session: what it decodes from the calls it made, then what the
      directory still has pending, is what was pending before. */
  method ReadSession(dir: Directory, bufs: seq<array<Byte>>) returns (outs: seq<seq<Byte>>)
    modifies dir, set b | b in bufs
    ensures AllPortable(old(dir.Pending())) ==>
      DecodeAll(outs).Some? && DecodeAll(outs).value + dir.Pending() == old(dir.Pending())
  {
    outs := ReadMany(dir, bufs);
    if AllPortable(old(dir.Pending())) {
      ExactlyOnce(old(dir.Pending()), Sizes(bufs), outs);
    }
  }

  /** A reader whose buffer holds any single record gets everything: each call
      makes progress until nothing is pending. */
  lemma {:induction false} BigEnoughBuffersDrain(listing: seq<Entry>, sizes: seq<nat>)
    requires |sizes| >= |listing|
    requires forall i, j :: 0 <= i < |listing| && 0 <= j < |sizes| ==> RecLen(|listing[i].name|) <= sizes[j]
    ensures Remaining(listing, sizes) == []
    decreases |sizes|
  {
    if sizes != [] {
      var k := Fits(listing, sizes[0]);
      assert listing != [] ==> RecLen(|listing[0].name|) <= sizes[0];
      BigEnoughBuffersDrain(listing[k..], sizes[1..]);
    }
  }
}
