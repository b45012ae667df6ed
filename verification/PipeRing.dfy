/**
 The 256-byte ring behind every pipe, and the two critical sections that
 `read` and `write` run under its lock.

 The ring keeps a head index, a tail index and a three-valued status that tells
 a full ring from an empty one.  `Contents` is the abstract value: the bytes
 waiting to be read, oldest first.
 */
module PipeRing {
  import opened Common

  const RING_BUFFER_SIZE: nat := 256

  datatype Status = Full | Empty | Normal

  /** How one critical section of `read` ends. */
  datatype ReadOutcome = ReadRetry | ReadEof | ReadGot(n: nat)

  /** How one critical section of `write` ends. */
  datatype WriteOutcome = WriteAgain | WriteReturn

  /** What a read section does to the bytes in the ring, seen from outside. */
  function ReadSpec(ring: seq<Byte>, len: nat, closed: bool): (ReadOutcome, seq<Byte>)
  {
    var n := Min(|ring|, len);
    if n == 0 then (if closed then ReadEof else ReadRetry, ring)
    else (ReadGot(n), ring[n..])
  }

  /** The number of bytes a write section moves. */
  function Accepts(ring: seq<Byte>, rest: nat): (n: nat)
  {
    if |ring| < RING_BUFFER_SIZE then Min(RING_BUFFER_SIZE - |ring|, rest) else 0
  }

  /** What a write section does when `rest` bytes are still to be written. */
  function WriteSpec(ring: seq<Byte>, rest: seq<Byte>, closed: bool): (WriteOutcome, seq<Byte>)
  {
    var out :=
      if |ring| >= RING_BUFFER_SIZE then (if closed then WriteReturn else WriteAgain)
      else if |rest| < RING_BUFFER_SIZE - |ring| then WriteReturn
      else WriteAgain;
    (out, ring + rest[..Accepts(ring, |rest|)])
  }

  /** Whether an end is readable, and whether it is writable. */
  function PollSpec(ring: seq<Byte>, readEnd: bool): (bool, bool) {
    (readEnd && ring != [], !readEnd && |ring| < RING_BUFFER_SIZE)
  }

  /** The bytes between head and tail, going round the end of the array. */
  function Window(a: seq<Byte>, head: nat, tail: nat, status: Status): (s: seq<Byte>)
    requires head <= |a| && tail <= |a|
  {
    if status == Empty then []
    else if tail > head then a[head..tail]
    else a[head..] + a[..tail]
  }

  ghost predicate Consistent(head: nat, tail: nat, status: Status)
  {
    head < RING_BUFFER_SIZE && tail < RING_BUFFER_SIZE && (status == Normal <==> head != tail)
  }

  /** The index after `i`. */
  function Next(i: nat): (k: nat)
    requires i < RING_BUFFER_SIZE
    ensures k < RING_BUFFER_SIZE && k == (i + 1) % RING_BUFFER_SIZE
  {
    if i + 1 == RING_BUFFER_SIZE then 0 else i + 1
  }

  lemma StoreAppends(a: seq<Byte>, head: nat, tail: nat, status: Status, byte: Byte)
    requires |a| == RING_BUFFER_SIZE && Consistent(head, tail, status)
    ensures
      var tail' := Next(tail);
      var status' := if tail' == head then Full else Normal;
      Window(a[tail := byte], head, tail', status')
      == (if status == Full then [] else Window(a, head, tail, status)) + [byte]
  {
    var b := a[tail := byte];
    if tail + 1 == RING_BUFFER_SIZE {
      assert b[head..] == a[head..tail] + [byte];
      assert b[..0] == [];
    } else {
      assert b[..tail + 1] == a[..tail] + [byte];
      if tail >= head {
        assert b[head..tail + 1] == a[head..tail] + [byte];
      } else {
        assert b[head..] == a[head..];
      }
    }
  }

  lemma TakeDropsFirst(a: seq<Byte>, head: nat, tail: nat, status: Status)
    requires |a| == RING_BUFFER_SIZE && Consistent(head, tail, status)
    ensures
      var head' := Next(head);
      var status' := if head' == tail then Empty else Normal;
      && (status != Empty ==> Window(a, head, tail, status) == [a[head]] + Window(a, head', tail, status'))
      && (status == Empty ==> |Window(a, head', tail, status')| == RING_BUFFER_SIZE - 1)
  {
    if status != Empty {
      if head + 1 == RING_BUFFER_SIZE {
        assert a[head..] == [a[head]];
        assert a[0..tail] == a[..tail];
      } else if tail > head {
        assert a[head..tail] == [a[head]] + a[head + 1..tail];
      } else {
        assert a[head..] + a[..tail] == [a[head]] + (a[head + 1..] + a[..tail]);
      }
    }
  }

  lemma AppendStep(whole: seq<Byte>, a: seq<Byte>, c: Byte, b: seq<Byte>)
    requires whole == a + ([c] + b)
    ensures whole == (a + [c]) + b
  {
  }

  class RingBuffer {
    const arr: array<Byte>
    var head: nat
    var tail: nat
    var status: Status

    ghost predicate Valid()
      reads this
    {
      && arr.Length == RING_BUFFER_SIZE
      && Consistent(head, tail, status)
    }

    ghost function Contents(): (s: seq<Byte>)
      requires Valid()
      reads this, arr
    {
      Window(arr[..], head, tail, status)
    }

    constructor ()
      ensures Valid() && fresh(arr)
      ensures Contents() == []
    {
      arr := new Byte[RING_BUFFER_SIZE](_ => 0);
      head, tail, status := 0, 0, Empty;
    }

    function AvailableRead(): (n: nat)
      requires Valid()
      reads this, arr
      ensures n == |Contents()|
    {
      if status == Empty then 0
      else if tail > head then tail - head
      else tail + RING_BUFFER_SIZE - head
    }

    function AvailableWrite(): (n: nat)
      requires Valid()
      reads this, arr
      ensures n + |Contents()| == RING_BUFFER_SIZE
    {
      if status == Full then 0 else RING_BUFFER_SIZE - AvailableRead()
    }

    /** `poll` of the read end or of the write end. */
    function Poll(readEnd: bool): (r: (bool, bool))
      requires Valid()
      reads this, arr
      ensures r == PollSpec(Contents(), readEnd)
    {
      (readEnd && AvailableRead() > 0, !readEnd && AvailableWrite() > 0)
    }

    /** Appends one byte.  Storing into a full ring forgets everything else,
        which is why the write section asks for the room first. */
    method WriteByte(byte: Byte)
      requires Valid()
      modifies this, arr
      ensures Valid()
      ensures Contents() == (if |old(Contents())| == RING_BUFFER_SIZE then [] else old(Contents())) + [byte]
    {
      StoreAppends(arr[..], head, tail, status, byte);
      ghost var stored := arr[..][tail := byte];
      status := Normal;
      arr[tail] := byte;
      assert arr[..] == stored;
      tail := (tail + 1) % RING_BUFFER_SIZE;
      if tail == head {
        status := Full;
      }
    }

    /** Removes the oldest byte.  Reading an empty ring yields a stale byte and
        turns 255 stale ones into contents, so the read section asks first. */
    method ReadByte() returns (c: Byte)
      requires Valid()
      modifies this
      ensures Valid()
      ensures old(Contents()) != [] ==> old(Contents()) == [c] + Contents()
      ensures old(Contents()) == [] ==> |Contents()| == RING_BUFFER_SIZE - 1
    {
      TakeDropsFirst(arr[..], head, tail, status);
      status := Normal;
      c := arr[head];
      head := (head + 1) % RING_BUFFER_SIZE;
      if head == tail {
        status := Empty;
      }
    }

    /** One iteration of the copy loop in `read`. */
    method ReadInto(buf: array<Byte>, i: nat)
      requires Valid() && buf != arr && i < buf.Length && Contents() != []
      modifies this, buf
      ensures Valid() && old(Contents()) == [buf[i]] + Contents()
      ensures buf[..i + 1] == old(buf[..i]) + [buf[i]]
      ensures forall k :: i < k < buf.Length ==> buf[k] == old(buf[k])
    {
      var c := ReadByte();
      buf[i] := c;
    }

    /** One pass of the loop in `read` while the lock is held. */
    method ReadSection(buf: array<Byte>, closed: bool) returns (out: ReadOutcome)
      requires Valid() && buf != arr
      modifies this, buf
      ensures Valid()
      ensures (out, Contents()) == ReadSpec(old(Contents()), buf.Length, closed)
      ensures out.ReadGot? ==> out.n == Min(|old(Contents())|, buf.Length) > 0
      ensures out.ReadGot? ==> buf[..out.n] + Contents() == old(Contents())
      ensures !out.ReadGot? ==>
        (old(Contents()) == [] || buf.Length == 0) && Contents() == old(Contents()) && (out == ReadEof <==> closed)
      ensures buf[if out.ReadGot? then out.n else 0..] == old(buf[..])[if out.ReadGot? then out.n else 0..]
    {
      ghost var before := Contents();
      var readSize := Min(AvailableRead(), buf.Length);
      if readSize == 0 {
        return if closed then ReadEof else ReadRetry;
      }
      var i := 0;
      while i < readSize
        invariant 0 <= i <= readSize
        invariant Valid()
        invariant buf[..i] + Contents() == before
        invariant forall k :: i <= k < buf.Length ==> buf[k] == old(buf[k])
      {
        ghost var got := buf[..i];
        ReadInto(buf, i);
        AppendStep(before, got, buf[i], Contents());
        i := i + 1;
      }
      return ReadGot(readSize);
    }

    /** One pass of the loop in `write` while the lock is held; `done` is the
        number of bytes of `buf` that earlier passes moved. */
    method WriteSection(buf: array<Byte>, done: nat, closed: bool) returns (out: WriteOutcome, done': nat)
      requires Valid() && buf != arr && done <= buf.Length
      modifies this, arr
      ensures Valid()
      ensures (out, Contents()) == WriteSpec(old(Contents()), buf[done..], closed)
      ensures done' == done + Min(RING_BUFFER_SIZE - |old(Contents())|, buf.Length - done)
      ensures Contents() == old(Contents()) + buf[done..done']
    {
      ghost var before := Contents();
      done' := done;
      var loopWrite := AvailableWrite();
      if loopWrite == 0 {
        assert before + buf[done..][..0] == before;
        return if closed then WriteReturn else WriteAgain, done;
      }
      var i := 0;
      while i < loopWrite
        invariant 0 <= i <= loopWrite
        invariant done' == done + i <= buf.Length
        invariant Valid()
        invariant Contents() == before + buf[done..done']
      {
        if done' == buf.Length {
          assert buf[done..][..buf.Length - done] == buf[done..done'];
          return WriteReturn, done';
        }
        WriteByte(buf[done']);
        assert buf[done..done' + 1] == buf[done..done'] + [buf[done']];
        done' := done' + 1;
        i := i + 1;
      }
      assert buf[done..][..loopWrite] == buf[done..done'];
      return WriteAgain, done';
    }
  }
}
