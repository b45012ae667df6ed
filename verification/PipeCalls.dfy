/**
 What each event of a `read` or `write` does, in every state that is reached,
 said without the functions that compute it: what a call starts with, when it is
 refused, and how much a pass moves.
 */
module PipeCalls {
  import opened Common
  import opened PipeRing
  import opened PipeSystem
  import opened PipeRuns

  /** Only the pipe `p` and the call `o` are touched, and no reference. */
  ghost predicate TouchesOnly(s: State, s': State, p: nat, o: nat) {
    && s'.held == s.held && s'.ends == s.ends && s'.buffers == s.buffers
    && (forall q :: q in s.rings && q != p ==> q in s'.rings && s'.rings[q] == s.rings[q])
    && (forall k :: k in s.ops && k != o ==> k in s'.ops && s'.ops[k] == s.ops[k])
  }

  /** A read or write starts with the length or the bytes its caller gave, on the
      end its handle refers to, with nothing moved. */
  lemma StartIsExact(s: State, e: Event)
    requires Enabled(s, e) && (e.StartRead? || e.StartWrite?)
    ensures
      var s' := Apply(s, e);
      && e.o in s'.ops && e.o !in s.ops && s'.ops - {e.o} == s.ops && s' == s.(ops := s'.ops)
      && s'.ops[e.o].phase == Fresh && s'.ops[e.o].h == e.h
      && s.held[Handle(e.h)] == End(s'.ops[e.o].pipe, s'.ops[e.o].side)
      && (e.StartRead? ==> s'.ops[e.o].Reading? && s'.ops[e.o].len == e.len && s'.ops[e.o].got == [])
      && (e.StartWrite? ==> s'.ops[e.o].Writing? && s'.ops[e.o].data == e.data && s'.ops[e.o].written == 0)
  {
  }

  lemma JobKeptAt(ss: seq<State>, es: seq<Event>, k: nat, o: nat)
    requires IsRun(ss, es) && k < |es| && o in ss[k].ops
    ensures o in ss[k + 1].ops && SameJob(ss[k].ops[o], ss[k + 1].ops[o])
  {
    assert StepAt(ss, es, k);
    JobsKept(ss[k], es[k]);
  }

  /** The request of a call never changes. */
  lemma {:induction false} RequestKept(ss: seq<State>, es: seq<Event>, i: nat, j: nat, o: nat)
    requires IsRun(ss, es) && i <= j < |ss| && o in ss[i].ops
    ensures o in ss[j].ops && SameJob(ss[i].ops[o], ss[j].ops[o])
    decreases j - i
  {
    if i < j {
      RequestKept(ss, es, i, j - 1, o);
      JobKeptAt(ss, es, j - 1, o);
    }
  }

  lemma CheckDecides(s: State, o: nat)
    requires RefInv(s) && OpInv(s) && Enabled(s, Check(o))
    ensures
      var (op, phase) := (s.ops[o], Apply(s, Check(o)).ops[o].phase);
      var alone := HoldersOf(s.held, End(op.pipe, ReadEnd)) == {};
      && (op.Reading? ==>
        phase == (if op.side == WriteEnd then Failed(EPERM) else if op.len == 0 then Returned else Looping))
      && (op.Writing? ==>
        phase == (if op.side == ReadEnd then Failed(EPERM) else if alone then Failed(EPIPE)
                  else if op.data == [] then Returned else Looping))
  {
    assert OpOk(s, s.ops[o]);
    RunningEndIsAlive(s, o);
    ClosedMeans(s, s.ops[o].pipe, s.ops[o].side);
  }

  /** In every run a call is refused exactly when it must be: EPERM on the wrong end,
      and a write with EPIPE iff nothing holds the read end any more, even when it
      has nothing to write.  It is over at once iff it asks for nothing. */
  lemma CheckIsExact(ss: seq<State>, es: seq<Event>, i: nat, o: nat)
    requires IsRun(ss, es) && i < |ss| && Enabled(ss[i], Check(o))
    ensures
      var (s, s') := (ss[i], Apply(ss[i], Check(o)));
      var (op, phase) := (s.ops[o], s'.ops[o].phase);
      var alone := HoldersOf(s.held, End(op.pipe, ReadEnd)) == {};
      && (phase == Failed(EPERM) <==> op.side == if op.Reading? then WriteEnd else ReadEnd)
      && (phase == Failed(EPIPE) <==> op.Writing? && op.side == WriteEnd && alone)
      && (op.Reading? ==> (phase == Returned <==> op.side == ReadEnd && op.len == 0))
      && (op.Writing? ==> (phase == Returned <==> op.side == WriteEnd && !alone && op.data == []))
      && (phase == Looping || phase == Returned || phase == Failed(EPERM) || phase == Failed(EPIPE))
      && s'.rings == s.rings && TouchesOnly(s, s', op.pipe, o) && SameJob(op, s'.ops[o])
  {
    RunKeepsRefs(ss, es, i);
    CheckDecides(ss[i], o);
    CheckTouches(ss[i], o);
  }

  lemma CheckTouches(s: State, o: nat)
    requires Enabled(s, Check(o))
    ensures
      var s' := Apply(s, Check(o));
      s'.rings == s.rings && TouchesOnly(s, s', s.ops[o].pipe, o) && SameJob(s.ops[o], s'.ops[o])
  {
  }

  lemma ReadTakes(s: State, o: nat)
    requires Enabled(s, ReadPass(o)) && Honest(s, s.ops[o])
    ensures
      var (s', p) := (ApplyRead(s, o), s.ops[o].pipe);
      var n := Min(|s.rings[p]|, s.ops[o].len);
      s'.rings[p] == s.rings[p][n..] && s'.ops[o].got == s.rings[p][..n]
  {
    var ring := s.rings[s.ops[o].pipe];
    assert ring[0..] == ring && ring[..0] == [];
  }

  lemma ReadTouches(s: State, o: nat)
    requires Enabled(s, ReadPass(o))
    ensures TouchesOnly(s, ApplyRead(s, o), s.ops[o].pipe, o) && ApplyRead(s, o).accepted == s.accepted
  {
  }

  /** In every run a pass of `read` takes all it can: the smaller of what the ring
      holds and what was asked for, from the front. */
  lemma ReadIsExact(ss: seq<State>, es: seq<Event>, i: nat, o: nat)
    requires IsRun(ss, es) && i < |ss| && Enabled(ss[i], ReadPass(o))
    ensures
      var (s, s') := (ss[i], Apply(ss[i], ReadPass(o)));
      var p := s.ops[o].pipe;
      var n := Min(|s.rings[p]|, s.ops[o].len);
      && s'.rings[p] == s.rings[p][n..] && s'.ops[o].got == s.rings[p][..n]
      && TouchesOnly(s, s', p, o) && s'.accepted == s.accepted
  {
    RunKeepsInv(ss, es, i);
    assert Honest(ss[i], ss[i].ops[o]);
    ReadTakes(ss[i], o);
    ReadTouches(ss[i], o);
  }

  lemma WriteTakes(s: State, o: nat)
    requires Enabled(s, WritePass(o)) && |s.rings[s.ops[o].pipe]| <= RING_BUFFER_SIZE
    ensures
      var (s', op) := (ApplyWrite(s, o), s.ops[o]);
      var n := Min(RING_BUFFER_SIZE - |s.rings[op.pipe]|, |op.data| - op.written);
      && s'.rings[op.pipe] == s.rings[op.pipe] + op.data[op.written..op.written + n]
      && s'.ops[o].written == op.written + n
  {
    var op := s.ops[o];
    var rest := op.data[op.written..];
    var n := Accepts(s.rings[op.pipe], |rest|);
    assert rest[..n] == op.data[op.written..op.written + n];
  }

  lemma WriteTouches(s: State, o: nat)
    requires Enabled(s, WritePass(o))
    ensures TouchesOnly(s, ApplyWrite(s, o), s.ops[o].pipe, o) && ApplyWrite(s, o).delivered == s.delivered
  {
  }

  lemma RingBounded(ss: seq<State>, es: seq<Event>, i: nat, p: nat)
    requires IsRun(ss, es) && i < |ss| && p in ss[i].rings
    ensures |ss[i].rings[p]| <= RING_BUFFER_SIZE
  {
    RunKeepsInv(ss, es, i);
    assert InOrder(ss[i].accepted[p], ss[i].delivered[p], ss[i].rings[p]);
  }

  /** In every run a pass of `write` puts in all it can: the smaller of the room in
      the ring and what is left of the buffer, behind what is there. */
  lemma WriteIsExact(ss: seq<State>, es: seq<Event>, i: nat, o: nat)
    requires IsRun(ss, es) && i < |ss| && Enabled(ss[i], WritePass(o))
    ensures
      var (s, s') := (ss[i], Apply(ss[i], WritePass(o)));
      var op := s.ops[o];
      && |s.rings[op.pipe]| <= RING_BUFFER_SIZE
      && var n := Min(RING_BUFFER_SIZE - |s.rings[op.pipe]|, |op.data| - op.written);
      && s'.rings[op.pipe] == s.rings[op.pipe] + op.data[op.written..op.written + n]
      && s'.ops[o].written == op.written + n
      && TouchesOnly(s, s', op.pipe, o) && s'.delivered == s.delivered
  {
    RingBounded(ss, es, i, ss[i].ops[o].pipe);
    WriteTakes(ss[i], o);
    WriteTouches(ss[i], o);
  }
}
