/**
 What every run of the pipe system keeps, and what that means for `read` and
 `write`: no byte is lost, duplicated or reordered, end of file is reported
 exactly when it is final, and a short write means the reader is gone.
 */
module PipeRuns {
  import opened Common
  import opened PipeRing
  import opened PipeSystem

  // ----------------------------------------------------------------- counting

  lemma AddHolder(held: map<Holder, Ref>, x: Holder, r: Ref, q: Ref)
    requires x !in held
    ensures |HoldersOf(held[x := r], q)| == |HoldersOf(held, q)| + (if q == r then 1 else 0)
  {
    assert HoldersOf(held[x := r], q) == HoldersOf(held, q) + (if q == r then {x} else {});
  }

  lemma DropHolder(held: map<Holder, Ref>, x: Holder, q: Ref)
    requires x in held
    ensures |HoldersOf(held - {x}, q)| == |HoldersOf(held, q)| - (if q == held[x] then 1 else 0)
  {
    assert HoldersOf(held - {x}, q) == HoldersOf(held, q) - {x};
  }

  lemma SomeHolder(held: map<Holder, Ref>, x: Holder)
    requires x in held
    ensures |HoldersOf(held, held[x])| > 0
  {
    assert x in HoldersOf(held, held[x]);
  }

  lemma NoHolders(s: State, p: nat, side: Side)
    requires RefInv(s) && p !in s.rings
    ensures Count(s.ends, End(p, side)) == 0
  {
    var hs := HoldersOf(s.held, End(p, side));
    assert hs == {};
  }

  lemma CloneKeepsRefs(s: State, x: Holder, r: Ref)
    requires RefInv(s) && x !in s.held
    requires r.End? ==> r in s.held.Values
    requires x.Slot? ==> x.fd < AX_FILE_LIMIT
    ensures RefInv(Clone(s, x, r))
  {
    forall q: Ref ensures |HoldersOf(Clone(s, x, r).held, q)| == |HoldersOf(s.held, q)| + (if q == r then 1 else 0) {
      AddHolder(s.held, x, r, q);
    }
    if r.End? {
      var y :| y in s.held && s.held[y] == r;
      SomeHolder(s.held, y);
    }
  }

  lemma DropHolds(s: State, x: Holder)
    requires RefInv(s) && x in s.held
    ensures forall r: Ref :: r.End? ==> Count(Drop(s, x).ends, r) == |HoldersOf(Drop(s, x).held, r)|
  {
    forall r: Ref | r.End? ensures Count(Drop(s, x).ends, r) == |HoldersOf(Drop(s, x).held, r)| {
      assert Count(s.ends, r) == |HoldersOf(s.held, r)|;
      DropHolder(s.held, x, r);
    }
  }

  lemma DropOwners(s: State, x: Holder, p: nat)
    requires RefInv(s) && x in s.held
    ensures Count(Drop(s, x).buffers, p) == Alive(Drop(s, x), End(p, ReadEnd)) + Alive(Drop(s, x), End(p, WriteEnd))
  {
    var r := s.held[x];
    SomeHolder(s.held, x);
    assert Count(s.buffers, p) == Alive(s, End(p, ReadEnd)) + Alive(s, End(p, WriteEnd));
    if r.End? && r.pipe == p {
      assert r == End(p, r.side);
      assert r.side == ReadEnd || r.side == WriteEnd;
    }
  }

  lemma DropKeepsRefs(s: State, x: Holder)
    requires RefInv(s) && x in s.held
    ensures RefInv(Drop(s, x))
  {
    DropHolds(s, x);
    var s' := Drop(s, x);
    forall p: nat
      ensures Count(s'.buffers, p) == Alive(s', End(p, ReadEnd)) + Alive(s', End(p, WriteEnd))
    {
      DropOwners(s, x, p);
    }
  }

  lemma MoveKeepsRefs(s: State, h: nat, t: nat, fd: nat)
    requires RefInv(s) && Handle(h) in s.held && Slot(t, fd) !in s.held && fd < AX_FILE_LIMIT
    ensures RefInv(s.(held := (s.held - {Handle(h)})[Slot(t, fd) := s.held[Handle(h)]]))
  {
    var r := s.held[Handle(h)];
    var mid := s.held - {Handle(h)};
    forall q: Ref ensures |HoldersOf(mid[Slot(t, fd) := r], q)| == |HoldersOf(s.held, q)| {
      DropHolder(s.held, Handle(h), q);
      AddHolder(mid, Slot(t, fd), r, q);
    }
  }

  lemma NewPipeKeepsRefs(s: State, p: nat, hr: nat, hw: nat)
    requires RefInv(s) && Enabled(s, NewPipe(p, hr, hw))
    ensures RefInv(Apply(s, NewPipe(p, hr, hw)))
  {
    var s' := Apply(s, NewPipe(p, hr, hw));
    NoHolders(s, p, ReadEnd);
    NoHolders(s, p, WriteEnd);
    var mid := s.held[Handle(hr) := End(p, ReadEnd)];
    forall q: Ref ensures |HoldersOf(s'.held, q)|
        == |HoldersOf(s.held, q)| + (if q == End(p, ReadEnd) || q == End(p, WriteEnd) then 1 else 0) {
      AddHolder(s.held, Handle(hr), End(p, ReadEnd), q);
      AddHolder(mid, Handle(hw), End(p, WriteEnd), q);
    }
  }

  /** Events that only move references about. */
  predicate MovesRefs(e: Event) {
    e.NewOther? || e.GetFile? || e.Install? || e.Remove? || e.CopySlot? || e.DropHandle?
  }

  predicate RunsCall(e: Event) {
    e.StartRead? || e.StartWrite? || e.Check? || e.ReadPass? || e.WritePass?
  }

  lemma MovedRefsOnly(s: State, e: Event)
    requires Enabled(s, e) && MovesRefs(e)
    ensures SameData(s, Apply(s, e))
  {
    match e {
      case NewOther(id, h) =>
      case GetFile(t, fd, h) =>
      case Install(h, t, fd) =>
      case Remove(t, fd) =>
      case CopySlot(t, fd, t') =>
      case DropHandle(h) =>
    }
  }

  lemma RanCallOnly(s: State, e: Event)
    requires Enabled(s, e) && RunsCall(e)
    ensures
      var s' := Apply(s, e);
      s'.held == s.held && s'.ends == s.ends && s'.buffers == s.buffers && s'.rings.Keys == s.rings.Keys
  {
    match e {
      case StartRead(o, h, len) =>
      case StartWrite(o, h, data) =>
      case Check(o) =>
      case ReadPass(o) =>
      case WritePass(o) =>
    }
  }

  lemma MoveRefsKept(s: State, e: Event)
    requires RefInv(s) && Enabled(s, e) && MovesRefs(e)
    ensures RefInv(Apply(s, e))
  {
    match e {
      case NewOther(id, h) => CloneKeepsRefs(s, Handle(h), Other(id));
      case GetFile(t, fd, h) => CloneKeepsRefs(s, Handle(h), s.held[Slot(t, fd)]);
      case Install(h, t, fd) => MoveKeepsRefs(s, h, t, fd);
      case Remove(t, fd) => DropKeepsRefs(s, Slot(t, fd));
      case CopySlot(t, fd, t') => CloneKeepsRefs(s, Slot(t', fd), s.held[Slot(t, fd)]);
      case DropHandle(h) => DropKeepsRefs(s, Handle(h));
    }
  }

  lemma RefsKept(s: State, e: Event)
    requires RefInv(s) && Enabled(s, e)
    ensures RefInv(Apply(s, e))
  {
    if MovesRefs(e) {
      MoveRefsKept(s, e);
    } else if RunsCall(e) {
      RanCallOnly(s, e);
    } else {
      NewPipeKeepsRefs(s, e.p, e.hr, e.hw);
    }
  }

  // ------------------------------------------------- running calls and dead ends

  /** Moving references about never takes away the handle of a running call. */
  lemma MovedHandles(s: State, e: Event, h: nat)
    requires Enabled(s, e) && (MovesRefs(e) || e.NewPipe?) && Busy(s, h) && Handle(h) in s.held
    ensures Handle(h) in Apply(s, e).held && Apply(s, e).held[Handle(h)] == s.held[Handle(h)]
  {
    match e {
      case NewPipe(p, hr, hw) => assert h != hr && h != hw;
      case NewOther(id, h') => assert h != h';
      case GetFile(t, fd, h') => assert h != h';
      case Install(h', t, fd) => assert h != h';
      case Remove(t, fd) => assert Slot(t, fd) != Handle(h);
      case CopySlot(t, fd, t') => assert Slot(t', fd) != Handle(h);
      case DropHandle(h') => assert h != h';
    }
  }

  lemma OpKept(s: State, e: Event, o: nat)
    requires OpInv(s) && Enabled(s, e) && (MovesRefs(e) || e.NewPipe?) && o in s.ops
    ensures Apply(s, e).ops == s.ops && OpOk(Apply(s, e), s.ops[o])
  {
    assert OpOk(s, s.ops[o]);
    if s.ops[o].Running() {
      assert Busy(s, s.ops[o].h);
      MovedHandles(s, e, s.ops[o].h);
    }
    if MovesRefs(e) {
      MovedRefsOnly(s, e);
    }
  }

  lemma OpAdvanced(s: State, e: Event, o: nat)
    requires OpInv(s) && RefInv(s) && Enabled(s, e) && RunsCall(e) && o in Apply(s, e).ops
    ensures OpOk(Apply(s, e), Apply(s, e).ops[o])
  {
    RanCallOnly(s, e);
    assert o in s.ops ==> OpOk(s, s.ops[o]);
  }

  lemma OpsKept(s: State, e: Event)
    requires OpInv(s) && RefInv(s) && Enabled(s, e)
    ensures OpInv(Apply(s, e))
  {
    if RunsCall(e) {
      forall o | o in Apply(s, e).ops ensures OpOk(Apply(s, e), Apply(s, e).ops[o]) {
        OpAdvanced(s, e, o);
      }
    } else {
      forall o | o in s.ops ensures Apply(s, e).ops == s.ops && OpOk(Apply(s, e), s.ops[o]) {
        OpKept(s, e, o);
      }
    }
  }

  /** A live call on an end keeps that end's count positive. */
  lemma RunningEndIsAlive(s: State, o: nat)
    requires RefInv(s) && OpInv(s) && o in s.ops && s.ops[o].Running()
    ensures Count(s.ends, End(s.ops[o].pipe, s.ops[o].side)) > 0
  {
    assert OpOk(s, s.ops[o]);
    SomeHolder(s.held, Handle(s.ops[o].h));
  }

  /** An end nobody holds can never be reached again. */
  lemma DeadStaysDead(s: State, e: Event, p: nat, side: Side)
    requires RefInv(s) && Enabled(s, e)
    requires p in s.rings && Count(s.ends, End(p, side)) == 0
    ensures p in Apply(s, e).rings && Count(Apply(s, e).ends, End(p, side)) == 0
  {
    if MovesRefs(e) {
      MovedRefsOnly(s, e);
      DeadNotMoved(s, e, p, side);
    } else if RunsCall(e) {
      RanCallOnly(s, e);
    }
  }

  lemma DeadNotMoved(s: State, e: Event, p: nat, side: Side)
    requires RefInv(s) && Enabled(s, e) && MovesRefs(e)
    requires Count(s.ends, End(p, side)) == 0
    ensures Count(Apply(s, e).ends, End(p, side)) == 0
  {
    match e {
      case GetFile(t, fd, h) => SomeHolder(s.held, Slot(t, fd));
      case CopySlot(t, fd, t') => SomeHolder(s.held, Slot(t, fd));
      case Remove(t, fd) => SomeHolder(s.held, Slot(t, fd));
      case DropHandle(h) => SomeHolder(s.held, Handle(h));
      case _ =>
    }
  }

  // --------------------------------------------------------------------- data

  lemma BytesOfTagged(l: Log, o: nat, bytes: seq<Byte>)
    ensures Bytes(l + Tag(o, bytes)) == Bytes(l) + bytes
  {
  }

  lemma {:induction false} ProjectTagged(l: Log, o: nat, bytes: seq<Byte>, q: nat)
    ensures Project(l + Tag(o, bytes), q) == Project(l, q) + (if q == o then bytes else [])
    decreases |bytes|
  {
    if bytes == [] {
      assert l + Tag(o, bytes) == l;
    } else {
      var n := |bytes| - 1;
      var whole := l + Tag(o, bytes);
      assert whole[..|whole| - 1] == l + Tag(o, bytes[..n]);
      ProjectTagged(l, o, bytes[..n], q);
      assert bytes == bytes[..n] + [bytes[n]];
    }
  }

  lemma {:induction false} ProjectAbsent(l: Log, o: nat)
    requires forall i :: 0 <= i < |l| ==> l[i].0 != o
    ensures Project(l, o) == []
  {
    if l != [] {
      ProjectAbsent(l[..|l| - 1], o);
    }
  }

  lemma ReadInOrder(s: State, o: nat)
    requires DataInv(s) && Enabled(s, ReadPass(o))
    ensures DataInv(ApplyRead(s, o))
  {
    var p := s.ops[o].pipe;
    var n := Min(|s.rings[p]|, s.ops[o].len);
    assert InOrder(s.accepted[p], s.delivered[p], s.rings[p]);
    BytesOfTagged(s.delivered[p], o, s.rings[p][..n]);
    assert s.rings[p] == s.rings[p][..n] + s.rings[p][n..];
    assert InOrder(s.accepted[p], s.delivered[p] + Tag(o, s.rings[p][..n]), s.rings[p][n..]);
  }

  lemma WriteInOrder(s: State, o: nat)
    requires DataInv(s) && Enabled(s, WritePass(o))
    ensures DataInv(ApplyWrite(s, o))
  {
    var p := s.ops[o].pipe;
    var rest := s.ops[o].data[s.ops[o].written..];
    var more := rest[..Accepts(s.rings[p], |rest|)];
    assert InOrder(s.accepted[p], s.delivered[p], s.rings[p]);
    BytesOfTagged(s.accepted[p], o, more);
    assert InOrder(s.accepted[p] + Tag(o, more), s.delivered[p], s.rings[p] + more);
  }

  lemma NewPipeInOrder(s: State, p: nat, hr: nat, hw: nat)
    requires DataInv(s) && Enabled(s, NewPipe(p, hr, hw))
    ensures DataInv(Apply(s, NewPipe(p, hr, hw)))
  {
    assert InOrder([], [], []);
  }

  lemma DataKept(s: State, e: Event)
    requires DataInv(s) && Enabled(s, e)
    ensures DataInv(Apply(s, e))
  {
    if MovesRefs(e) {
      MovedRefsOnly(s, e);
    } else {
      match e {
        case ReadPass(o) => ReadInOrder(s, o);
        case WritePass(o) => WriteInOrder(s, o);
        case NewPipe(p, hr, hw) => NewPipeInOrder(s, p, hr, hw);
        case StartRead(o, h, len) =>
        case StartWrite(o, h, data) =>
        case Check(o) =>
      }
    }
  }

  // ------------------------------------------------------------------- streams

  /** The calls of `s` are still there after a step, doing the same job. */
  ghost predicate SameJobs(ops: map<nat, Op>, ops': map<nat, Op>) {
    forall o :: o in ops ==> o in ops' && SameJob(ops[o], ops'[o])
  }

  predicate SameJob(op: Op, op': Op) {
    && op'.h == op.h && op'.pipe == op.pipe && op'.side == op.side
    && match op
      case Reading(_, _, _, _, len, _) => op'.Reading? && op'.len == len
      case Writing(_, _, _, _, data, _) => op'.Writing? && op'.data == data
  }

  lemma JobsKept(s: State, e: Event)
    requires Enabled(s, e)
    ensures SameJobs(s.ops, Apply(s, e).ops)
  {
    if MovesRefs(e) {
      MovedRefsOnly(s, e);
    } else {
      match e {
        case NewPipe(p, hr, hw) =>
        case StartRead(o, h, len) =>
        case StartWrite(o, h, data) =>
        case Check(o) => assert SameJob(s.ops[o], Apply(s, e).ops[o]);
        case ReadPass(o) => assert SameJob(s.ops[o], ApplyRead(s, o).ops[o]);
        case WritePass(o) => assert SameJob(s.ops[o], ApplyWrite(s, o).ops[o]);
      }
    }
  }

  /** Writers stay writers. */
  lemma WritersStay(ops: map<nat, Op>, ops': map<nat, Op>, p: nat, l: Log)
    requires FromWriters(ops, p, l) && SameJobs(ops, ops')
    ensures FromWriters(ops', p, l)
  {
    forall i | 0 <= i < |l| ensures l[i].0 in ops' && WriterOf(ops'[l[i].0], p) {
      assert l[i].0 in ops && SameJob(ops[l[i].0], ops'[l[i].0]);
    }
  }

  lemma OneMoreWriter(ops: map<nat, Op>, p: nat, l: Log, o: nat, bytes: seq<Byte>)
    requires FromWriters(ops, p, l) && o in ops && WriterOf(ops[o], p)
    ensures FromWriters(ops, p, l + Tag(o, bytes))
  {
  }

  lemma WritePassWriters(s: State, o: nat, p: nat)
    requires Enabled(s, WritePass(o)) && s.ops[o].side == WriteEnd && p in ApplyWrite(s, o).accepted
    requires SameJobs(s.ops, ApplyWrite(s, o).ops)
    requires p in s.accepted ==> FromWriters(s.ops, p, s.accepted[p])
    ensures FromWriters(ApplyWrite(s, o).ops, p, ApplyWrite(s, o).accepted[p])
  {
    var s', log := ApplyWrite(s, o), LogOf(s.accepted, p);
    WritersStay(s.ops, s'.ops, p, log);
    if p == s.ops[o].pipe {
      var rest := s.ops[o].data[s.ops[o].written..];
      var more := rest[..Accepts(s.rings[p], |rest|)];
      OneMoreWriter(s'.ops, p, log, o, more);
      assert s'.accepted[p] == log + Tag(o, more);
    } else {
      assert s'.accepted[p] == log;
    }
  }

  lemma WritersKept(s: State, e: Event, p: nat)
    requires OpInv(s) && SourceInv(s) && Enabled(s, e) && p in Apply(s, e).accepted
    ensures FromWriters(Apply(s, e).ops, p, Apply(s, e).accepted[p])
  {
    JobsKept(s, e);
    assert p in s.accepted ==> FromWriters(s.ops, p, s.accepted[p]);
    if e.WritePass? {
      assert OpOk(s, s.ops[e.o]);
      WritePassWriters(s, e.o, p);
    } else if p in s.accepted && !(e.NewPipe? && e.p == p) {
      assert Apply(s, e).accepted[p] == s.accepted[p] by {
        if MovesRefs(e) {
          MovedRefsOnly(s, e);
        }
      }
      WritersStay(s.ops, Apply(s, e).ops, p, s.accepted[p]);
    } else if MovesRefs(e) {
      MovedRefsOnly(s, e);
    }
  }

  lemma ReadersKept(s: State, e: Event, p: nat)
    requires OpInv(s) && SourceInv(s) && Enabled(s, e) && p in Apply(s, e).delivered
    ensures FromReaders(Apply(s, e).ops, p, Apply(s, e).delivered[p])
  {
    JobsKept(s, e);
    assert p in s.delivered ==> FromReaders(s.ops, p, s.delivered[p]);
    if e.ReadPass? {
      assert OpOk(s, s.ops[e.o]);
      ReadPassReaders(s, e.o, p);
    } else if MovesRefs(e) {
      MovedRefsOnly(s, e);
    }
  }

  /** Readers stay readers. */
  lemma ReadersStay(ops: map<nat, Op>, ops': map<nat, Op>, p: nat, l: Log)
    requires FromReaders(ops, p, l) && SameJobs(ops, ops')
    ensures FromReaders(ops', p, l)
  {
    forall i | 0 <= i < |l| ensures l[i].0 in ops' && ReaderOf(ops'[l[i].0], p) {
      assert l[i].0 in ops && SameJob(ops[l[i].0], ops'[l[i].0]);
    }
  }

  lemma OneMoreReader(ops: map<nat, Op>, p: nat, l: Log, o: nat, bytes: seq<Byte>)
    requires FromReaders(ops, p, l) && o in ops && ReaderOf(ops[o], p)
    ensures FromReaders(ops, p, l + Tag(o, bytes))
  {
  }

  lemma ReadPassReaders(s: State, o: nat, p: nat)
    requires Enabled(s, ReadPass(o)) && s.ops[o].side == ReadEnd && p in ApplyRead(s, o).delivered
    requires SameJobs(s.ops, ApplyRead(s, o).ops)
    requires p in s.delivered ==> FromReaders(s.ops, p, s.delivered[p])
    ensures FromReaders(ApplyRead(s, o).ops, p, ApplyRead(s, o).delivered[p])
  {
    var s', log := ApplyRead(s, o), LogOf(s.delivered, p);
    ReadersStay(s.ops, s'.ops, p, log);
    var n := Min(|s.rings[s.ops[o].pipe]|, s.ops[o].len);
    if p == s.ops[o].pipe && n > 0 {
      OneMoreReader(s'.ops, p, log, o, s.rings[p][..n]);
      assert s'.delivered[p] == log + Tag(o, s.rings[p][..n]);
    } else {
      assert s'.delivered[p] == log;
    }
  }

  lemma SourcesKept(s: State, e: Event)
    requires OpInv(s) && SourceInv(s) && Enabled(s, e)
    ensures SourceInv(Apply(s, e))
  {
    forall p | p in Apply(s, e).accepted ensures FromWriters(Apply(s, e).ops, p, Apply(s, e).accepted[p]) {
      WritersKept(s, e, p);
    }
    forall p | p in Apply(s, e).delivered ensures FromReaders(Apply(s, e).ops, p, Apply(s, e).delivered[p]) {
      ReadersKept(s, e, p);
    }
  }

  lemma UnusedTag(s: State, o: nat, p: nat)
    requires SourceInv(s) && o !in s.ops
    ensures Project(LogOf(s.accepted, p), o) == [] && Project(LogOf(s.delivered, p), o) == []
  {
    assert p in s.accepted ==> FromWriters(s.ops, p, s.accepted[p]);
    assert p in s.delivered ==> FromReaders(s.ops, p, s.delivered[p]);
    ProjectAbsent(LogOf(s.accepted, p), o);
    ProjectAbsent(LogOf(s.delivered, p), o);
  }

  lemma ReadExplained(s: State, o: nat, q: nat)
    requires Enabled(s, ReadPass(o)) && q in s.ops && Explained(q, s.ops[q], s.accepted, s.delivered)
    ensures Explained(q, ApplyRead(s, o).ops[q], ApplyRead(s, o).accepted, ApplyRead(s, o).delivered)
  {
    var p := s.ops[o].pipe;
    var n := Min(|s.rings[p]|, s.ops[o].len);
    ProjectTagged(LogOf(s.delivered, p), o, s.rings[p][..n], q);
  }

  lemma OtherWriteExplained(s: State, o: nat, q: nat)
    requires Enabled(s, WritePass(o)) && q in s.ops && q != o && Explained(q, s.ops[q], s.accepted, s.delivered)
    ensures Explained(q, ApplyWrite(s, o).ops[q], ApplyWrite(s, o).accepted, ApplyWrite(s, o).delivered)
  {
    var op := s.ops[o];
    var rest := op.data[op.written..];
    ProjectTagged(LogOf(s.accepted, op.pipe), o, rest[..Accepts(s.rings[op.pipe], |rest|)], q);
    assert ApplyWrite(s, o).ops[q] == s.ops[q];
  }

  lemma OwnWriteExplained(s: State, o: nat)
    requires Enabled(s, WritePass(o)) && Explained(o, s.ops[o], s.accepted, s.delivered)
    ensures Explained(o, ApplyWrite(s, o).ops[o], ApplyWrite(s, o).accepted, ApplyWrite(s, o).delivered)
  {
    var op := s.ops[o];
    var rest := op.data[op.written..];
    var n := Accepts(s.rings[op.pipe], |rest|);
    var log := LogOf(s.accepted, op.pipe);
    ProjectTagged(log, o, rest[..n], o);
    PrefixGrows(op.data, op.written, n);
    assert LogOf(ApplyWrite(s, o).accepted, op.pipe) == log + Tag(o, rest[..n]);
  }

  lemma PrefixGrows(data: seq<Byte>, k: nat, n: nat)
    requires k + n <= |data|
    ensures data[..k] + data[k..][..n] == data[..k + n]
  {
  }

  lemma StartExplained(s: State, e: Event, q: nat)
    requires SourceInv(s) && Enabled(s, e) && (e.StartRead? || e.StartWrite?) && q in Apply(s, e).ops
    requires q in s.ops ==> Explained(q, s.ops[q], s.accepted, s.delivered)
    ensures Explained(q, Apply(s, e).ops[q], s.accepted, s.delivered)
  {
    if q !in s.ops {
      UnusedTag(s, q, s.held[Handle(e.h)].pipe);
    }
  }

  lemma CheckExplained(s: State, o: nat, q: nat)
    requires Enabled(s, Check(o)) && q in s.ops && Explained(q, s.ops[q], s.accepted, s.delivered)
    ensures Explained(q, Apply(s, Check(o)).ops[q], s.accepted, s.delivered)
  {
  }

  lemma CallExplained(s: State, e: Event, q: nat)
    requires SourceInv(s) && Enabled(s, e) && RunsCall(e) && q in Apply(s, e).ops
    requires q in s.ops ==> Explained(q, s.ops[q], s.accepted, s.delivered)
    ensures Explained(q, Apply(s, e).ops[q], Apply(s, e).accepted, Apply(s, e).delivered)
  {
    match e {
      case StartRead(_, _, _) => StartExplained(s, e, q);
      case StartWrite(_, _, _) => StartExplained(s, e, q);
      case Check(o) => CheckExplained(s, o, q);
      case ReadPass(o) => ReadExplained(s, o, q);
      case WritePass(o) => if q == o { OwnWriteExplained(s, o); } else { OtherWriteExplained(s, o, q); }
    }
  }

  lemma MergeKept(s: State, e: Event)
    requires DataInv(s) && SourceInv(s) && MergeInv(s) && OpInv(s) && Enabled(s, e)
    ensures MergeInv(Apply(s, e))
  {
    if RunsCall(e) {
      forall q | q in Apply(s, e).ops
        ensures Explained(q, Apply(s, e).ops[q], Apply(s, e).accepted, Apply(s, e).delivered)
      {
        CallExplained(s, e, q);
      }
    } else if MovesRefs(e) {
      MovedRefsOnly(s, e);
    } else {
      forall q | q in s.ops ensures Explained(q, s.ops[q], Apply(s, e).accepted, Apply(s, e).delivered) {
        assert OpOk(s, s.ops[q]) && Explained(q, s.ops[q], s.accepted, s.delivered);
      }
    }
  }

  // ------------------------------------------------------------------ outcomes

  lemma ClosedMeans(s: State, p: nat, side: Side)
    requires RefInv(s) && Count(s.ends, End(p, side)) > 0
    ensures Closed(s, p) <==> Count(s.ends, End(p, Opposite(side))) == 0
    ensures Closed(s, p) <==> HoldersOf(s.held, End(p, Opposite(side))) == {}
  {
    var r := End(p, Opposite(side));
    assert Count(s.ends, r) == |HoldersOf(s.held, r)|;
    assert Count(s.buffers, p) == Alive(s, End(p, ReadEnd)) + Alive(s, End(p, WriteEnd));
  }

  lemma QuietOutcome(s: State, e: Event, op: Op)
    requires RefInv(s) && Enabled(s, e) && !e.ReadPass? && !e.WritePass?
    requires Honest(s, op) && op.pipe in s.rings
    ensures Honest(Apply(s, e), op)
  {
    if Count(s.ends, End(op.pipe, ReadEnd)) == 0 {
      DeadStaysDead(s, e, op.pipe, ReadEnd);
    }
    if Count(s.ends, End(op.pipe, WriteEnd)) == 0 {
      DeadStaysDead(s, e, op.pipe, WriteEnd);
    }
    if MovesRefs(e) {
      MovedRefsOnly(s, e);
    }
  }

  lemma CheckOutcome(s: State, o: nat)
    requires RefInv(s) && OpInv(s) && Enabled(s, Check(o)) && Honest(s, s.ops[o])
    ensures Honest(s, s.ops[o].With(CheckOp(s.ops[o], Closed(s, s.ops[o].pipe))))
  {
    var op := s.ops[o];
    assert OpOk(s, op);
    SomeHolder(s.held, Handle(op.h));
    ClosedMeans(s, op.pipe, op.side);
  }

  lemma ReadFrame(s: State, o: nat, q: nat, p: nat)
    requires Enabled(s, ReadPass(o)) && q in s.ops && q != o && p in s.rings
    ensures
      var s' := ApplyRead(s, o);
      && q in s'.ops && s'.ops[q] == s.ops[q] && s'.ends == s.ends
      && p in s'.rings && (p != s.ops[o].pipe || s.rings[p] == [] ==> s'.rings[p] == s.rings[p])
  {
  }

  lemma WriteFrame(s: State, o: nat, q: nat, p: nat)
    requires Enabled(s, WritePass(o)) && q in s.ops && q != o && p in s.rings
    ensures
      var s' := ApplyWrite(s, o);
      && q in s'.ops && s'.ops[q] == s.ops[q] && s'.ends == s.ends
      && p in s'.rings && (p != s.ops[o].pipe || |s.rings[p]| == RING_BUFFER_SIZE ==> s'.rings[p] == s.rings[p])
  {
  }

  /** A pass over a ring never contradicts what another call was told: the call
      making it holds its own end, so that end is not gone. */
  lemma ReadPassOutcome(s: State, o: nat, q: nat)
    requires RefInv(s) && OpInv(s) && Enabled(s, ReadPass(o)) && q in s.ops && q != o && Honest(s, s.ops[q])
    ensures ApplyRead(s, o).ops[q] == s.ops[q] && Honest(ApplyRead(s, o), s.ops[q])
  {
    assert OpOk(s, s.ops[q]) && OpOk(s, s.ops[o]);
    SomeHolder(s.held, Handle(s.ops[o].h));
    ReadFrame(s, o, q, s.ops[q].pipe);
  }

  lemma WritePassOutcome(s: State, o: nat, q: nat)
    requires RefInv(s) && OpInv(s) && Enabled(s, WritePass(o)) && q in s.ops && q != o && Honest(s, s.ops[q])
    ensures ApplyWrite(s, o).ops[q] == s.ops[q] && Honest(ApplyWrite(s, o), s.ops[q])
  {
    assert OpOk(s, s.ops[q]) && OpOk(s, s.ops[o]);
    SomeHolder(s.held, Handle(s.ops[o].h));
    WriteFrame(s, o, q, s.ops[q].pipe);
  }

  lemma ReadOutcomeHonest(s: State, o: nat)
    requires Inv(s) && Enabled(s, ReadPass(o))
    ensures Honest(ApplyRead(s, o), ApplyRead(s, o).ops[o])
  {
    assert Honest(s, s.ops[o]) && OpOk(s, s.ops[o]);
    RunningEndIsAlive(s, o);
    ClosedMeans(s, s.ops[o].pipe, ReadEnd);
  }

  lemma WriteOutcomeHonest(s: State, o: nat)
    requires Inv(s) && Enabled(s, WritePass(o))
    ensures Honest(ApplyWrite(s, o), ApplyWrite(s, o).ops[o])
  {
    assert Honest(s, s.ops[o]) && OpOk(s, s.ops[o]);
    assert InOrder(s.accepted[s.ops[o].pipe], s.delivered[s.ops[o].pipe], s.rings[s.ops[o].pipe]);
    RunningEndIsAlive(s, o);
    ClosedMeans(s, s.ops[o].pipe, WriteEnd);
  }

  lemma ReadOutcomes(s: State, o: nat)
    requires Inv(s) && Enabled(s, ReadPass(o))
    ensures OutcomeInv(ApplyRead(s, o))
  {
    forall q | q in ApplyRead(s, o).ops ensures Honest(ApplyRead(s, o), ApplyRead(s, o).ops[q]) {
      if q == o { ReadOutcomeHonest(s, o); } else { ReadPassOutcome(s, o, q); }
    }
  }

  lemma WriteOutcomes(s: State, o: nat)
    requires Inv(s) && Enabled(s, WritePass(o))
    ensures OutcomeInv(ApplyWrite(s, o))
  {
    forall q | q in ApplyWrite(s, o).ops ensures Honest(ApplyWrite(s, o), ApplyWrite(s, o).ops[q]) {
      if q == o { WriteOutcomeHonest(s, o); } else { WritePassOutcome(s, o, q); }
    }
  }

  lemma CheckOutcomes(s: State, o: nat)
    requires RefInv(s) && OpInv(s) && OutcomeInv(s) && Enabled(s, Check(o))
    ensures OutcomeInv(Apply(s, Check(o)))
  {
    CheckOutcome(s, o);
    var s' := Apply(s, Check(o));
    forall q | q in s'.ops ensures Honest(s', s'.ops[q]) {
      assert Honest(s, s'.ops[q]);
    }
  }

  lemma OutcomesKept(s: State, e: Event)
    requires Inv(s) && Enabled(s, e)
    ensures OutcomeInv(Apply(s, e))
  {
    if e.ReadPass? {
      ReadOutcomes(s, e.o);
    } else if e.WritePass? {
      WriteOutcomes(s, e.o);
    } else if e.Check? {
      CheckOutcomes(s, e.o);
    } else {
      forall q | q in Apply(s, e).ops ensures Honest(Apply(s, e), Apply(s, e).ops[q]) {
        OtherOutcome(s, e, q);
      }
    }
  }

  lemma OtherOutcome(s: State, e: Event, q: nat)
    requires RefInv(s) && Enabled(s, e) && !e.ReadPass? && !e.WritePass? && !e.Check? && q in Apply(s, e).ops
    requires q in s.ops ==> Honest(s, s.ops[q]) && OpOk(s, s.ops[q])
    ensures Honest(Apply(s, e), Apply(s, e).ops[q])
  {
    if q in s.ops {
      QuietOutcome(s, e, s.ops[q]);
      JobUntouched(s, e, q);
    }
  }

  lemma JobUntouched(s: State, e: Event, q: nat)
    requires Enabled(s, e) && !e.ReadPass? && !e.WritePass? && !e.Check? && q in s.ops
    ensures q in Apply(s, e).ops && Apply(s, e).ops[q] == s.ops[q]
  {
    if MovesRefs(e) {
      MovedRefsOnly(s, e);
    }
  }

  // ---------------------------------------------------------------- every run

  lemma StepKeepsInv(s: State, e: Event)
    requires Inv(s) && Enabled(s, e)
    ensures Inv(Apply(s, e))
  {
    RefsKept(s, e);
    OpsKept(s, e);
    DataKept(s, e);
    SourcesKept(s, e);
    MergeKept(s, e);
    OutcomesKept(s, e);
  }

  ghost predicate StepAt(ss: seq<State>, es: seq<Event>, i: nat)
    requires i < |es| < |ss|
  {
    Enabled(ss[i], es[i]) && ss[i + 1] == Apply(ss[i], es[i])
  }

  ghost predicate IsRun(ss: seq<State>, es: seq<Event>) {
    |ss| == |es| + 1 && ss[0] == Init && forall i: nat :: i < |es| ==> StepAt(ss, es, i)
  }

  /** A run and one more event. */
  lemma ExtendRun(ss: seq<State>, es: seq<Event>, e: Event, s': State)
    requires IsRun(ss, es) && Enabled(ss[|es|], e) && s' == Apply(ss[|es|], e)
    ensures IsRun(ss + [s'], es + [e])
  {
    var ss', es' := ss + [s'], es + [e];
    forall i: nat | i < |es'| ensures StepAt(ss', es', i) {
      if i < |es| {
        assert StepAt(ss, es, i);
        assert ss'[i] == ss[i] && es'[i] == es[i] && ss'[i + 1] == ss[i + 1];
      }
    }
  }

  lemma {:induction false} RunKeepsInv(ss: seq<State>, es: seq<Event>, i: nat)
    requires IsRun(ss, es) && i < |ss|
    ensures Inv(ss[i])
  {
    if i > 0 {
      RunKeepsInv(ss, es, i - 1);
      assert StepAt(ss, es, i - 1);
      StepKeepsInv(ss[i - 1], es[i - 1]);
    }
  }

  /** The part of the invariant that counting and running calls need. */
  lemma RunKeepsRefs(ss: seq<State>, es: seq<Event>, i: nat)
    requires IsRun(ss, es) && i < |ss|
    ensures RefInv(ss[i]) && OpInv(ss[i])
  {
    RunKeepsInv(ss, es, i);
  }

  /** Nothing is lost, duplicated or reordered: at every moment the bytes
      delivered, then the bytes in the ring, are the bytes accepted, and those
      are a merge of what each `write` has reported so far. */
  lemma StreamIsPreserved(ss: seq<State>, es: seq<Event>, i: nat, p: nat)
    requires IsRun(ss, es) && i < |ss| && p in ss[i].rings
    ensures
      var s := ss[i];
      && p in s.accepted && p in s.delivered
      && Bytes(s.delivered[p]) + s.rings[p] == Bytes(s.accepted[p])
      && |s.rings[p]| <= RING_BUFFER_SIZE
      && (forall k :: 0 <= k < |s.accepted[p]| ==>
        s.accepted[p][k].0 in s.ops && WriterOf(s.ops[s.accepted[p][k].0], p))
      && (forall o :: o in s.ops && WriterOf(s.ops[o], p) ==>
        s.ops[o].written <= |s.ops[o].data|
        && Project(s.accepted[p], o) == s.ops[o].data[..s.ops[o].written])
      && (forall o :: o in s.ops && ReaderOf(s.ops[o], p) ==> Project(s.delivered[p], o) == s.ops[o].got)
  {
    RunKeepsInv(ss, es, i);
    var s := ss[i];
    assert InOrder(s.accepted[p], s.delivered[p], s.rings[p]);
    assert FromWriters(s.ops, p, s.accepted[p]);
    forall o | o in s.ops ensures Explained(o, s.ops[o], s.accepted, s.delivered) {
    }
  }

  /** `closed()` seen from a live end: nobody holds the other end any more. */
  lemma ClosedIsExact(ss: seq<State>, es: seq<Event>, i: nat, p: nat, side: Side)
    requires IsRun(ss, es) && i < |ss|
    requires HoldersOf(ss[i].held, End(p, side)) != {}
    ensures Closed(ss[i], p) <==> HoldersOf(ss[i].held, End(p, Opposite(side))) == {}
  {
    RunKeepsInv(ss, es, i);
    assert Count(ss[i].ends, End(p, side)) == |HoldersOf(ss[i].held, End(p, side))|;
    ClosedMeans(ss[i], p, side);
  }

  lemma ReadWaits(s: State, o: nat)
    requires RefInv(s) && OpInv(s) && Enabled(s, ReadPass(o))
    ensures
      var p := s.ops[o].pipe;
      var waits := s.rings[p] == [] && HoldersOf(s.held, End(p, WriteEnd)) != {};
      && (waits ==> ApplyRead(s, o) == s)
      && (!waits ==> ApplyRead(s, o).ops[o].phase == Returned)
  {
    assert OpOk(s, s.ops[o]);
    RunningEndIsAlive(s, o);
    ClosedMeans(s, s.ops[o].pipe, ReadEnd);
  }

  /** A pass of `read` leaves everything as it was exactly when the ring is
      empty and somebody still holds the write end; otherwise the call returns. */
  lemma ReadWaitsExactly(ss: seq<State>, es: seq<Event>, i: nat, o: nat)
    requires IsRun(ss, es) && i < |ss| && Enabled(ss[i], ReadPass(o))
    ensures
      var p := ss[i].ops[o].pipe;
      var waits := ss[i].rings[p] == [] && HoldersOf(ss[i].held, End(p, WriteEnd)) != {};
      && (waits ==> Apply(ss[i], ReadPass(o)) == ss[i])
      && (!waits ==> Apply(ss[i], ReadPass(o)).ops[o].phase == Returned)
  {
    RunKeepsRefs(ss, es, i);
    ReadWaits(ss[i], o);
  }

  /** A pass of `write` returns exactly when room is left over after the buffer,
      or the ring is full and nobody holds the read end. */
  lemma WriteWaitsExactly(ss: seq<State>, es: seq<Event>, i: nat, o: nat)
    requires IsRun(ss, es) && i < |ss| && Enabled(ss[i], WritePass(o))
    ensures
      var op := ss[i].ops[o];
      var room := RING_BUFFER_SIZE - |ss[i].rings[op.pipe]|;
      var done :=
        || |op.data| - op.written < room
        || (room == 0 && HoldersOf(ss[i].held, End(op.pipe, ReadEnd)) == {});
      Apply(ss[i], WritePass(o)).ops[o].phase == (if done then Returned else Looping)
  {
    RunKeepsInv(ss, es, i);
    assert OpOk(ss[i], ss[i].ops[o]);
    var p := ss[i].ops[o].pipe;
    assert InOrder(ss[i].accepted[p], ss[i].delivered[p], ss[i].rings[p]);
    RunningEndIsAlive(ss[i], o);
    ClosedMeans(ss[i], p, WriteEnd);
  }

  lemma DeadAt(ss: seq<State>, es: seq<Event>, k: nat, p: nat, side: Side)
    requires IsRun(ss, es) && k < |es| && p in ss[k].rings && Count(ss[k].ends, End(p, side)) == 0
    ensures p in ss[k + 1].rings && Count(ss[k + 1].ends, End(p, side)) == 0
  {
    RunKeepsRefs(ss, es, k);
    assert StepAt(ss, es, k);
    DeadStaysDead(ss[k], es[k], p, side);
  }

  /** Once an end has no holder it has none in any later state. */
  lemma {:induction false} DeadForGood(ss: seq<State>, es: seq<Event>, i: nat, j: nat, p: nat, side: Side)
    requires IsRun(ss, es) && i <= j < |ss|
    requires p in ss[i].rings && Count(ss[i].ends, End(p, side)) == 0
    ensures p in ss[j].rings && Count(ss[j].ends, End(p, side)) == 0
    decreases j - i
  {
    if i < j {
      DeadForGood(ss, es, i, j - 1, p, side);
      DeadAt(ss, es, j - 1, p, side);
    }
  }

  lemma DeadWriterAcceptsNothing(s: State, e: Event, p: nat)
    requires RefInv(s) && OpInv(s) && Enabled(s, e)
    requires p in s.rings && p in s.accepted && Count(s.ends, End(p, WriteEnd)) == 0
    ensures p in Apply(s, e).accepted && Apply(s, e).accepted[p] == s.accepted[p]
  {
    if e.WritePass? {
      assert OpOk(s, s.ops[e.o]);
      SomeHolder(s.held, Handle(s.ops[e.o].h));
    } else if MovesRefs(e) {
      MovedRefsOnly(s, e);
    }
  }

  lemma NothingAcceptedAt(ss: seq<State>, es: seq<Event>, k: nat, p: nat)
    requires IsRun(ss, es) && k < |es| && p in ss[k].rings && p in ss[k].accepted
    requires Count(ss[k].ends, End(p, WriteEnd)) == 0
    ensures p in ss[k + 1].accepted && ss[k + 1].accepted[p] == ss[k].accepted[p]
  {
    RunKeepsRefs(ss, es, k);
    assert StepAt(ss, es, k);
    DeadWriterAcceptsNothing(ss[k], es[k], p);
  }

  lemma {:induction false} NothingMoreAccepted(ss: seq<State>, es: seq<Event>, i: nat, j: nat, p: nat)
    requires IsRun(ss, es) && i <= j < |ss|
    requires p in ss[i].rings && p in ss[i].accepted && Count(ss[i].ends, End(p, WriteEnd)) == 0
    ensures p in ss[j].accepted && ss[j].accepted[p] == ss[i].accepted[p]
    decreases j - i
  {
    if i < j {
      NothingMoreAccepted(ss, es, i, j - 1, p);
      DeadForGood(ss, es, i, j - 1, p, WriteEnd);
      NothingAcceptedAt(ss, es, j - 1, p);
    }
  }

  /** End of file is sound and final: when a read of a non-empty buffer has
      returned 0, every byte ever accepted has been delivered, nobody holds the
      write end, and no later step of the run adds a byte. */
  lemma EofIsFinal(ss: seq<State>, es: seq<Event>, i: nat, j: nat, o: nat)
    requires IsRun(ss, es) && i <= j < |ss| && o in ss[i].ops
    requires ss[i].ops[o].Reading? && ss[i].ops[o].phase == Returned
    requires ss[i].ops[o].got == [] && ss[i].ops[o].len > 0
    ensures
      var p := ss[i].ops[o].pipe;
      && p in ss[i].accepted && p in ss[j].rings && p in ss[j].accepted && p in ss[j].delivered
      && HoldersOf(ss[j].held, End(p, WriteEnd)) == {}
      && ss[j].rings[p] == []
      && ss[j].accepted[p] == ss[i].accepted[p]
      && Bytes(ss[j].delivered[p]) == Bytes(ss[i].accepted[p])
  {
    RunKeepsInv(ss, es, i);
    RunKeepsInv(ss, es, j);
    var s, p := ss[i], ss[i].ops[o].pipe;
    assert Honest(s, s.ops[o]) && OpOk(s, s.ops[o]);
    DeadForGood(ss, es, i, j, p, WriteEnd);
    NothingMoreAccepted(ss, es, i, j, p);
    assert Count(ss[j].ends, End(p, WriteEnd)) == |HoldersOf(ss[j].held, End(p, WriteEnd))|;
    OpsPersist(ss, es, i, j, o);
    assert Honest(ss[j], ss[j].ops[o]);
    assert InOrder(ss[j].accepted[p], ss[j].delivered[p], ss[j].rings[p]);
  }

  lemma FinishedStep(s: State, e: Event, o: nat)
    requires Enabled(s, e) && o in s.ops && !s.ops[o].Running()
    ensures o in Apply(s, e).ops && Apply(s, e).ops[o] == s.ops[o]
  {
    if MovesRefs(e) {
      MovedRefsOnly(s, e);
    }
  }

  lemma FinishedAt(ss: seq<State>, es: seq<Event>, k: nat, o: nat)
    requires IsRun(ss, es) && k < |es| && o in ss[k].ops && !ss[k].ops[o].Running()
    ensures o in ss[k + 1].ops && ss[k + 1].ops[o] == ss[k].ops[o]
  {
    assert StepAt(ss, es, k);
    FinishedStep(ss[k], es[k], o);
  }

  lemma {:induction false} OpsPersist(ss: seq<State>, es: seq<Event>, i: nat, j: nat, o: nat)
    requires IsRun(ss, es) && i <= j < |ss| && o in ss[i].ops && !ss[i].ops[o].Running()
    ensures o in ss[j].ops && ss[j].ops[o] == ss[i].ops[o]
    decreases j - i
  {
    if i < j {
      OpsPersist(ss, es, i, j - 1, o);
      FinishedAt(ss, es, j - 1, o);
    }
  }

  /** A write that returned took the whole buffer, unless the ring is full and
      the read end is gone; in that case it stays full for the rest of the run.
      A write refused with EPIPE moved nothing and had nobody to write to. */
  lemma ShortWriteMeansNoReader(ss: seq<State>, es: seq<Event>, i: nat, j: nat, o: nat)
    requires IsRun(ss, es) && i <= j < |ss| && o in ss[i].ops && ss[i].ops[o].Writing?
    ensures
      var op := ss[i].ops[o];
      var p := op.pipe;
      && (op.phase == Returned && op.written != |op.data| ==>
        && HoldersOf(ss[j].held, End(p, ReadEnd)) == {}
        && p in ss[j].rings && |ss[j].rings[p]| == RING_BUFFER_SIZE)
      && (op.phase == Failed(EPIPE) ==>
        && op.written == 0
        && HoldersOf(ss[j].held, End(p, ReadEnd)) == {}
        && p in ss[j].accepted && Project(ss[j].accepted[p], o) == [])
  {
    RunKeepsInv(ss, es, i);
    RunKeepsInv(ss, es, j);
    if !ss[i].ops[o].Running() {
      OpsPersist(ss, es, i, j, o);
      var s, op := ss[j], ss[j].ops[o];
      assert Honest(s, op) && OpOk(s, op) && Explained(o, op, s.accepted, s.delivered);
      assert Count(s.ends, End(op.pipe, ReadEnd)) == |HoldersOf(s.held, End(op.pipe, ReadEnd))|;
    }
  }
}
