/**
 What `poll` says of a pipe end, compared with what `read` and `write` would do,
 and what `select`, `poll` and `epoll` then tell their callers.
 */
module PipePolling {
  import opened PipeRing
  import opened PipeSystem
  import opened PipeRuns
  import Multiplex
  import MultiplexAgreement
  import Select

  /** A pipe end as the multiplexers see it. */
  function PollEnd(s: State, p: nat, side: Side): Multiplex.FdState
    requires p in s.rings
  {
    var (readable, writable) := PollSpec(s.rings[p], side == ReadEnd);
    Multiplex.Open(readable, writable)
  }

  /** Nothing to read, and nobody left to write. */
  ghost predicate AtEof(s: State, p: nat) {
    p in s.rings && s.rings[p] == [] && HoldersOf(s.held, End(p, WriteEnd)) == {}
  }

  /** In every run, `poll` calls a pipe readable iff a pass of `read` would return,
      exactly when the pipe is not at end of file; there the read returns and `poll`
      says no. */
  lemma PollAgainstRead(ss: seq<State>, es: seq<Event>, i: nat, o: nat)
    requires IsRun(ss, es) && i < |ss| && Enabled(ss[i], ReadPass(o))
    ensures
      var p := ss[i].ops[o].pipe;
      var ends := Apply(ss[i], ReadPass(o)).ops[o].phase == Returned;
      && ((PollEnd(ss[i], p, ReadEnd).readable <==> ends) <==> !AtEof(ss[i], p))
      && (AtEof(ss[i], p) ==> ends)
  {
    ReadWaitsExactly(ss, es, i, o);
  }

  /** `poll` calls a pipe writable iff a pass of `write` with bytes left moves some. */
  lemma PollAgainstWrite(s: State, o: nat)
    requires Enabled(s, WritePass(o))
    ensures
      var op := s.ops[o];
      ApplyWrite(s, o).ops[o].written > op.written
      <==> PollEnd(s, op.pipe, WriteEnd).writable && op.written < |op.data|
  {
  }

  /** A pipe whose write end has been dropped. */
  const HalfPipe: State := State(map[Handle(0) := End(0, ReadEnd)],
                                 map[End(0, ReadEnd) := 1, End(0, WriteEnd) := 0],
                                 map[0 := 1], map[0 := []], map[0 := []], map[0 := []], map[])

  lemma HalfPipeReached()
    ensures Enabled(Init, NewPipe(0, 0, 1)) && Enabled(Apply(Init, NewPipe(0, 0, 1)), DropHandle(1))
    ensures Apply(Apply(Init, NewPipe(0, 0, 1)), DropHandle(1)) == HalfPipe
  {
    var s := Apply(Init, NewPipe(0, 0, 1));
    assert s.held - {Handle(1)} == HalfPipe.held;
    assert s.ends[End(0, WriteEnd) := 0] == HalfPipe.ends;
    assert s.buffers[0 := 1] == HalfPipe.buffers;
  }

  lemma HalfPipeRun() returns (ss: seq<State>, es: seq<Event>)
    ensures IsRun(ss, es) && |es| == 2 && ss[2] == HalfPipe
  {
    HalfPipeReached();
    var s := Apply(Init, NewPipe(0, 0, 1));
    assert IsRun([Init], []);
    ExtendRun([Init], [], NewPipe(0, 0, 1), s);
    ss, es := [Init] + [s], [] + [NewPipe(0, 0, 1)];
    ExtendRun(ss, es, DropHandle(1), HalfPipe);
    ss, es := ss + [HalfPipe], es + [DropHandle(1)];
  }

  /** The same pipe with a read of one byte in some phase. */
  function WithRead(phase: Phase): State {
    HalfPipe.(ops := map[0 := Reading(0, 0, ReadEnd, phase, 1, [])])
  }

  lemma ReadAtEof()
    ensures Enabled(HalfPipe, StartRead(0, 0, 1)) && Apply(HalfPipe, StartRead(0, 0, 1)) == WithRead(Fresh)
    ensures Enabled(WithRead(Fresh), Check(0)) && Apply(WithRead(Fresh), Check(0)) == WithRead(Looping)
    ensures Enabled(WithRead(Looping), ReadPass(0)) && Apply(WithRead(Looping), ReadPass(0)) == WithRead(Returned)
  {
    assert map[0 := Reading(0, 0, ReadEnd, Fresh, 1, [])][0 := Reading(0, 0, ReadEnd, Looping, 1, [])]
        == map[0 := Reading(0, 0, ReadEnd, Looping, 1, [])];
    assert map[0 := Reading(0, 0, ReadEnd, Looping, 1, [])][0 := Reading(0, 0, ReadEnd, Returned, 1, [])]
        == map[0 := Reading(0, 0, ReadEnd, Returned, 1, [])];
  }

  /** End of file is reached: a pipe whose write end is dropped, and a read of one
      byte.  `poll` says not readable, and the read returns nothing. */
  lemma EofHappens() returns (ss: seq<State>, es: seq<Event>)
    ensures IsRun(ss, es) && |es| == 5
    ensures AtEof(ss[4], 0) && Enabled(ss[4], ReadPass(0)) && !PollEnd(ss[4], 0, ReadEnd).readable
    ensures 0 in ss[5].ops && ss[5].ops[0].Reading? && ss[5].ops[0].phase == Returned
    ensures ss[5].ops[0].got == [] && ss[5].ops[0].len > 0
  {
    ss, es := HalfPipeRun();
    ReadAtEof();
    ExtendRun(ss, es, StartRead(0, 0, 1), WithRead(Fresh));
    ss, es := ss + [WithRead(Fresh)], es + [StartRead(0, 0, 1)];
    ExtendRun(ss, es, Check(0), WithRead(Looping));
    ss, es := ss + [WithRead(Looping)], es + [Check(0)];
    ExtendRun(ss, es, ReadPass(0), WithRead(Returned));
    ss, es := ss + [WithRead(Returned)], es + [ReadPass(0)];
    assert ss[4] == WithRead(Looping) && ss[5] == WithRead(Returned);
  }

  lemma EmptyStays(s: State, e: Event, p: nat)
    requires RefInv(s) && OpInv(s) && Enabled(s, e) && p in s.rings && s.rings[p] == []
    requires Count(s.ends, End(p, WriteEnd)) == 0
    ensures p in Apply(s, e).rings && Apply(s, e).rings[p] == []
  {
    if MovesRefs(e) {
      MovedRefsOnly(s, e);
    } else if e.WritePass? {
      assert OpOk(s, s.ops[e.o]);
      SomeHolder(s.held, Handle(s.ops[e.o].h));
    }
  }

  lemma EofStep(ss: seq<State>, es: seq<Event>, k: nat, p: nat)
    requires IsRun(ss, es) && k < |es| && AtEof(ss[k], p)
    ensures AtEof(ss[k + 1], p)
  {
    RunKeepsRefs(ss, es, k);
    RunKeepsRefs(ss, es, k + 1);
    assert Count(ss[k].ends, End(p, WriteEnd)) == |HoldersOf(ss[k].held, End(p, WriteEnd))|;
    assert StepAt(ss, es, k);
    EmptyStays(ss[k], es[k], p);
    DeadAt(ss, es, k, p, WriteEnd);
    assert Count(ss[k + 1].ends, End(p, WriteEnd)) == |HoldersOf(ss[k + 1].held, End(p, WriteEnd))|;
  }

  /** End of file is for good. */
  lemma {:induction false} EofStays(ss: seq<State>, es: seq<Event>, i: nat, j: nat, p: nat)
    requires IsRun(ss, es) && i <= j < |ss| && AtEof(ss[i], p)
    ensures AtEof(ss[j], p)
    decreases j - i
  {
    if i < j {
      EofStays(ss, es, i, j - 1, p);
      EofStep(ss, es, j - 1, p);
    }
  }

  /** So end of file on a pipe is never reported: from the moment it is reached no
      `select`, `poll` or `epoll` says anything about the read end, whatever the
      caller asked for, while every `read` of it returns at once. */
  lemma EofIsNeverReported(ss: seq<State>, es: seq<Event>, i: nat, j: nat, p: nat,
                           m: Multiplex.Interest, fd: nat, world: Multiplex.World, limit: nat, kind: Select.Kind)
    requires IsRun(ss, es) && i <= j < |ss| && AtEof(ss[i], p) && p in ss[j].rings
    requires fd in m && world(fd) == PollEnd(ss[j], p, ReadEnd)
    ensures fd !in MultiplexAgreement.SelectReady(kind, m, limit, world)
    ensures Multiplex.Revents(MultiplexAgreement.AsPoll(m, fd), world) == {}
    ensures !Multiplex.Fires(m, world, fd)
    ensures forall o :: Enabled(ss[j], ReadPass(o)) && ss[j].ops[o].pipe == p ==>
      Apply(ss[j], ReadPass(o)).ops[o].phase == Returned
  {
    EofStays(ss, es, i, j, p);
    assert world(fd) == Multiplex.Open(false, false);
    forall o | Enabled(ss[j], ReadPass(o)) && ss[j].ops[o].pipe == p
      ensures Apply(ss[j], ReadPass(o)).ops[o].phase == Returned
    {
      PollAgainstRead(ss, es, j, o);
    }
    Silent(m, fd, world, limit, kind);
  }

  lemma Silent(m: Multiplex.Interest, fd: nat, world: Multiplex.World, limit: nat, kind: Select.Kind)
    requires fd in m && world(fd) == Multiplex.Open(false, false)
    ensures fd !in MultiplexAgreement.SelectReady(kind, m, limit, world)
    ensures Multiplex.Revents(MultiplexAgreement.AsPoll(m, fd), world) == {}
    ensures !Multiplex.Fires(m, world, fd)
  {
    assert Multiplex.Polled(world)(fd) == Select.PollOk(false, false);
  }
}
