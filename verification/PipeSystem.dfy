/**
 Pipes, descriptor tables and the calls in flight, as one transition system.

 Every `Arc<Pipe>` in the kernel sits either in a slot of some descriptor table
 or in a local handle of a running call; `held` lists them all.  Beside that
 list the state carries the two strong counts the kernel really maintains, one
 per `Arc<Pipe>` object (`ends`) and one per shared ring (`buffers`), changed
 only by the increments and decrements that clone and drop perform.  An event is
 one atomic piece of a system call: a table access under the table lock, one
 critical section of a pipe, or one clone or drop.  Any interleaving of events
 of any number of tasks is a run.

 `accepted` and `delivered` are history: every byte that entered or left a ring,
 tagged with the call that moved it.
 */
module PipeSystem {
  import opened Common
  import opened PipeRing

  const AX_FILE_LIMIT: nat := 1024

  datatype Side = ReadEnd | WriteEnd

  datatype Ref = End(pipe: nat, side: Side) | Other(id: nat)

  datatype Holder = Slot(table: nat, fd: nat) | Handle(h: nat)

  datatype Errno = EPERM | EPIPE | EBADF | EMFILE

  datatype Phase = Fresh | Looping | Returned | Failed(e: Errno)

  datatype Op =
    | Reading(h: nat, pipe: nat, side: Side, phase: Phase, len: nat, got: seq<Byte>)
    | Writing(h: nat, pipe: nat, side: Side, phase: Phase, data: seq<Byte>, written: nat)
  {
    predicate Running() {
      phase == Fresh || phase == Looping
    }

    function With(phase': Phase): Op {
      match this
      case Reading(h, p, side, _, len, got) => Reading(h, p, side, phase', len, got)
      case Writing(h, p, side, _, data, n) => Writing(h, p, side, phase', data, n)
    }
  }

  type Log = seq<(nat, Byte)>

  datatype State = State(
    held: map<Holder, Ref>,
    ends: map<Ref, int>,
    buffers: map<nat, int>,
    rings: map<nat, seq<Byte>>,
    accepted: map<nat, Log>,
    delivered: map<nat, Log>,
    ops: map<nat, Op>)

  datatype Event =
    | NewPipe(p: nat, hr: nat, hw: nat)
    | NewOther(id: nat, h: nat)
    | GetFile(t: nat, fd: nat, h: nat)
    | Install(h: nat, t: nat, fd: nat)
    | Remove(t: nat, fd: nat)
    | CopySlot(t: nat, fd: nat, t': nat)
    | DropHandle(h: nat)
    | StartRead(o: nat, h: nat, len: nat)
    | StartWrite(o: nat, h: nat, data: seq<Byte>)
    | Check(o: nat)
    | ReadPass(o: nat)
    | WritePass(o: nat)

  const Init := State(map[], map[], map[], map[], map[], map[], map[])

  function Count<K>(m: map<K, int>, k: K): int {
    if k in m then m[k] else 0
  }

  function Opposite(side: Side): Side {
    if side == ReadEnd then WriteEnd else ReadEnd
  }

  /** `Pipe::closed`: the ring has one owner left. */
  predicate Closed(s: State, p: nat) {
    Count(s.buffers, p) == 1
  }

  predicate Busy(s: State, h: nat) {
    exists o :: o in s.ops && s.ops[o].h == h && s.ops[o].Running()
  }

  function Tag(o: nat, bytes: seq<Byte>): (l: Log) {
    seq(|bytes|, i requires 0 <= i < |bytes| => (o, bytes[i]))
  }

  function Bytes(l: Log): seq<Byte> {
    seq(|l|, i requires 0 <= i < |l| => l[i].1)
  }

  /** The bytes that call `o` contributed to a log, in order. */
  function Project(l: Log, o: nat): seq<Byte> {
    if l == [] then []
    else Project(l[..|l| - 1], o) + (if l[|l| - 1].0 == o then [l[|l| - 1].1] else [])
  }

  // --------------------------------------------------------------- transitions

  /** The parts of the state that moving references about leaves alone. */
  predicate SameData(s: State, s': State) {
    s'.rings == s.rings && s'.accepted == s.accepted && s'.delivered == s.delivered && s'.ops == s.ops
  }

  /** Clone an `Arc<Pipe>` into the place `x`. */
  function Clone(s: State, x: Holder, r: Ref): (s': State)
    ensures SameData(s, s')
  {
    s.(held := s.held[x := r],
       ends := if r.End? then s.ends[r := Count(s.ends, r) + 1] else s.ends)
  }

  /** Drop the `Arc<Pipe>` at `x`; dropping the last one drops the `Pipe`, and
      with it one owner of the ring. */
  function Drop(s: State, x: Holder): (s': State)
    requires x in s.held
    ensures SameData(s, s')
  {
    var r := s.held[x];
    if r.Other? then s.(held := s.held - {x})
    else
      var n := Count(s.ends, r) - 1;
      s.(held := s.held - {x},
         ends := s.ends[r := n],
         buffers := if n == 0 then s.buffers[r.pipe := Count(s.buffers, r.pipe) - 1] else s.buffers)
  }

  predicate Enabled(s: State, e: Event) {
    match e
    case NewPipe(p, hr, hw) => p !in s.rings && hr != hw && Handle(hr) !in s.held && Handle(hw) !in s.held
    case NewOther(id, h) => Handle(h) !in s.held
    case GetFile(t, fd, h) => Slot(t, fd) in s.held && Handle(h) !in s.held
    case Install(h, t, fd) => Handle(h) in s.held && Slot(t, fd) !in s.held && fd < AX_FILE_LIMIT && !Busy(s, h)
    case Remove(t, fd) => Slot(t, fd) in s.held
    case CopySlot(t, fd, t') => Slot(t, fd) in s.held && Slot(t', fd) !in s.held
    case DropHandle(h) => Handle(h) in s.held && !Busy(s, h)
    case StartRead(o, h, len) => o !in s.ops && Handle(h) in s.held && s.held[Handle(h)].End?
    case StartWrite(o, h, data) => o !in s.ops && Handle(h) in s.held && s.held[Handle(h)].End?
    case Check(o) => o in s.ops && s.ops[o].phase == Fresh
    case ReadPass(o) => o in s.ops && s.ops[o].Reading? && s.ops[o].phase == Looping && s.ops[o].pipe in s.rings
    case WritePass(o) =>
      && o in s.ops && s.ops[o].Writing? && s.ops[o].phase == Looping && s.ops[o].pipe in s.rings
      && s.ops[o].written <= |s.ops[o].data|
  }

  function CheckOp(op: Op, closed: bool): Phase {
    match op
    case Reading(_, _, side, _, len, _) =>
      if side == WriteEnd then Failed(EPERM) else if len == 0 then Returned else Looping
    case Writing(_, _, side, _, data, _) =>
      if side == ReadEnd then Failed(EPERM) else if closed then Failed(EPIPE)
      else if data == [] then Returned else Looping
  }

  function LogOf(m: map<nat, Log>, p: nat): Log {
    if p in m then m[p] else []
  }

  function Apply(s: State, e: Event): State
    requires Enabled(s, e)
  {
    match e
    case NewPipe(p, hr, hw) =>
      s.(held := s.held[Handle(hr) := End(p, ReadEnd)][Handle(hw) := End(p, WriteEnd)],
         ends := s.ends[End(p, ReadEnd) := 1][End(p, WriteEnd) := 1],
         buffers := s.buffers[p := 2],
         rings := s.rings[p := []], accepted := s.accepted[p := []], delivered := s.delivered[p := []])
    case NewOther(id, h) => Clone(s, Handle(h), Other(id))
    case GetFile(t, fd, h) => Clone(s, Handle(h), s.held[Slot(t, fd)])
    case Install(h, t, fd) => s.(held := (s.held - {Handle(h)})[Slot(t, fd) := s.held[Handle(h)]])
    case Remove(t, fd) => Drop(s, Slot(t, fd))
    case CopySlot(t, fd, t') => Clone(s, Slot(t', fd), s.held[Slot(t, fd)])
    case DropHandle(h) => Drop(s, Handle(h))
    case StartRead(o, h, len) =>
      var r := s.held[Handle(h)];
      s.(ops := s.ops[o := Reading(h, r.pipe, r.side, Fresh, len, [])])
    case StartWrite(o, h, data) =>
      var r := s.held[Handle(h)];
      s.(ops := s.ops[o := Writing(h, r.pipe, r.side, Fresh, data, 0)])
    case Check(o) =>
      s.(ops := s.ops[o := s.ops[o].With(CheckOp(s.ops[o], Closed(s, s.ops[o].pipe)))])
    case ReadPass(o) => ApplyRead(s, o)
    case WritePass(o) => ApplyWrite(s, o)
  }

  function ApplyRead(s: State, o: nat): State
    requires Enabled(s, ReadPass(o))
  {
    var op := s.ops[o];
    var p := op.pipe;
    var (out, ring) := ReadSpec(s.rings[p], op.len, Closed(s, p));
    match out
    case ReadRetry => s
    case ReadEof => s.(ops := s.ops[o := op.With(Returned)])
    case ReadGot(n) =>
      var taken := s.rings[p][..n];
      s.(rings := s.rings[p := ring],
         delivered := s.delivered[p := LogOf(s.delivered, p) + Tag(o, taken)],
         ops := s.ops[o := Reading(op.h, p, op.side, Returned, op.len, op.got + taken)])
  }

  function ApplyWrite(s: State, o: nat): State
    requires Enabled(s, WritePass(o))
  {
    var op := s.ops[o];
    var p := op.pipe;
    var rest := op.data[op.written..];
    var (out, ring) := WriteSpec(s.rings[p], rest, Closed(s, p));
    var n := Accepts(s.rings[p], |rest|);
    s.(rings := s.rings[p := ring],
       accepted := s.accepted[p := LogOf(s.accepted, p) + Tag(o, rest[..n])],
       ops := s.ops[o := Writing(op.h, p, op.side, if out == WriteReturn then Returned else Looping,
                                   op.data, op.written + n)])
  }

  // ---------------------------------------------------------------- invariants

  function HoldersOf(held: map<Holder, Ref>, r: Ref): (hs: set<Holder>) {
    set x | x in held && held[x] == r
  }

  function Alive(s: State, r: Ref): int {
    if Count(s.ends, r) > 0 then 1 else 0
  }

  /** The counts the kernel keeps are the numbers of places that hold the object. */
  ghost predicate RefInv(s: State) {
    && (forall r: Ref :: r.End? ==> Count(s.ends, r) == |HoldersOf(s.held, r)|)
    && (forall p: nat :: Count(s.buffers, p) == Alive(s, End(p, ReadEnd)) + Alive(s, End(p, WriteEnd)))
    && (forall x :: x in s.held && s.held[x].End? ==> s.held[x].pipe in s.rings)
    && (forall x :: x in s.held && x.Slot? ==> x.fd < AX_FILE_LIMIT)
  }

  ghost predicate OpOk(s: State, op: Op) {
    && op.pipe in s.rings
    && (op.Running() ==> Handle(op.h) in s.held && s.held[Handle(op.h)] == End(op.pipe, op.side))
    && (op.phase == Looping ==> op.side == if op.Reading? then ReadEnd else WriteEnd)
    && (op.Reading? && op.phase == Looping ==> op.len > 0)
  }

  /** A running call keeps its own pipe end alive. */
  ghost predicate OpInv(s: State) {
    forall o :: o in s.ops ==> OpOk(s, s.ops[o])
  }

  /** Delivered bytes, then the ring, are the accepted bytes. */
  ghost predicate InOrder(accepted: Log, delivered: Log, ring: seq<Byte>) {
    |ring| <= RING_BUFFER_SIZE && Bytes(accepted) == Bytes(delivered) + ring
  }

  ghost predicate DataInv(s: State) {
    && s.accepted.Keys == s.rings.Keys && s.delivered.Keys == s.rings.Keys
    && forall p :: p in s.rings ==> InOrder(s.accepted[p], s.delivered[p], s.rings[p])
  }

  predicate WriterOf(op: Op, p: nat) {
    op.Writing? && op.pipe == p && op.side == WriteEnd
  }

  predicate ReaderOf(op: Op, p: nat) {
    op.Reading? && op.pipe == p && op.side == ReadEnd
  }

  ghost predicate FromWriters(ops: map<nat, Op>, p: nat, l: Log) {
    forall i :: 0 <= i < |l| ==> l[i].0 in ops && WriterOf(ops[l[i].0], p)
  }

  ghost predicate FromReaders(ops: map<nat, Op>, p: nat, l: Log) {
    forall i :: 0 <= i < |l| ==> l[i].0 in ops && ReaderOf(ops[l[i].0], p)
  }

  /** Every byte in the streams was moved by a call of the right kind. */
  ghost predicate SourceInv(s: State) {
    && (forall p :: p in s.accepted ==> FromWriters(s.ops, p, s.accepted[p]))
    && (forall p :: p in s.delivered ==> FromReaders(s.ops, p, s.delivered[p]))
  }

  /** What call `o` moved is a prefix of its buffer, or what it returns. */
  ghost predicate Explained(o: nat, op: Op, accepted: map<nat, Log>, delivered: map<nat, Log>) {
    match op
    case Writing(_, p, _, _, data, n) => n <= |data| && Project(LogOf(accepted, p), o) == data[..n]
    case Reading(_, p, _, _, _, got) => Project(LogOf(delivered, p), o) == got
  }

  /** The accepted stream is a merge of prefixes of the writers' buffers, the
      delivered stream a merge of what the readers got. */
  ghost predicate MergeInv(s: State) {
    forall o :: o in s.ops ==> Explained(o, s.ops[o], s.accepted, s.delivered)
  }

  /** What a finished call tells its caller. */
  ghost predicate Honest(s: State, op: Op)
  {
    match op
    case Reading(_, p, side, phase, len, got) =>
      && |got| <= len
      && (phase != Returned ==> got == [])
      && (phase == Returned && got == [] && len > 0 ==>
        Count(s.ends, End(p, WriteEnd)) == 0 && p in s.rings && s.rings[p] == [])
      && (phase.Failed? ==> phase.e == EPERM && side == WriteEnd)
    case Writing(_, p, side, phase, data, written) =>
      && (phase == Fresh || phase.Failed? ==> written == 0)
      && (phase == Returned && written != |data| ==>
        Count(s.ends, End(p, ReadEnd)) == 0 && p in s.rings && |s.rings[p]| == RING_BUFFER_SIZE)
      && (phase.Failed? ==>
        || (phase.e == EPERM && side == ReadEnd)
        || (phase.e == EPIPE && Count(s.ends, End(p, ReadEnd)) == 0))
  }

  ghost predicate OutcomeInv(s: State) {
    forall o :: o in s.ops ==> Honest(s, s.ops[o])
  }

  ghost predicate Inv(s: State) {
    RefInv(s) && OpInv(s) && DataInv(s) && SourceInv(s) && MergeInv(s) && OutcomeInv(s)
  }
}
