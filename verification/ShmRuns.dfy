/**
 What every run of the shared-memory calls keeps: the two maps agree, recorded
 segments stay registered, deletion is deferred while a segment is attached and
 happens in the step that detaches it last.
 */
module ShmRuns {
  import opened Common
  import opened Shm

  // -------------------------------------------------------------- identifiers

  lemma SuccCycles(start: int, k: nat)
    requires 0 < start <= I32_MAX
    ensures 0 < Cyclic(start, k) <= I32_MAX
    ensures Cyclic(start, 0) == start
    ensures Cyclic(start, k + 1) == Succ(Cyclic(start, k))
  {
  }

  /** The first `n` ids in cyclic order from `start` are all taken. */
  ghost predicate Taken(used: set<int>, start: int, n: nat) {
    forall j: nat :: j < n ==> Cyclic(start, j) in used
  }

  /** The first free id in cyclic order, within `left` tries. */
  lemma {:induction false} ProbeFindsFirst(used: set<int>, start: int, k: nat, left: nat) returns (n: nat)
    requires 0 < start <= I32_MAX && Taken(used, start, k)
    ensures
      var r := Probe(used, Cyclic(start, k), left);
      && k <= n <= k + left && Taken(used, start, n)
      && (r.0.Some? ==>
        n < k + left && r.0.value == Cyclic(start, n) && r.0.value !in used && r.1 == Cyclic(start, n + 1))
      && (r.0.None? ==> n == k + left && r.1 == Cyclic(start, n))
    decreases left
  {
    SuccCycles(start, k);
    n := k;
    if left > 0 && Cyclic(start, k) in used {
      assert Taken(used, start, k + 1);
      n := ProbeFindsFirst(used, start, k + 1, left - 1);
    }
  }

  /** `alloc_id` yields the first unused id in cyclic order from `next`, and
      fails only at the size cap or after 1000 consecutive ids in use. */
  lemma AllocIsFirstFree(used: set<int>, next: int) returns (n: nat)
    requires 0 < next <= I32_MAX
    ensures
      var r := AllocSpec(used, next);
      && 0 < r.1 <= I32_MAX
      && (r.0.Some? ==>
        && |used| < I32_MAX / 2 && 0 < r.0.value <= I32_MAX
        && n < MAX_ATTEMPTS && Taken(used, next, n)
        && r.0.value == Cyclic(next, n) && r.0.value !in used && r.1 == Cyclic(next, n + 1))
      && (r.0.None? ==> |used| >= I32_MAX / 2 || Taken(used, next, MAX_ATTEMPTS))
  {
    SuccCycles(next, 0);
    n := 0;
    if |used| < I32_MAX / 2 {
      n := ProbeFindsFirst(used, next, 0, MAX_ATTEMPTS);
      SuccCycles(next, n);
      SuccCycles(next, n + 1);
    }
  }

  // ------------------------------------------------------------- every step

  /** Records name live objects, so a fresh object has none. */
  lemma FreshHasNoRecords(s: State, obj: nat)
    requires Registry(s) && Recorded(s) && obj !in s.heap
    ensures RecordsOf(s, obj) == {}
  {
    forall p | p in s.records ensures s.records[p].obj in s.heap {
      assert OwnId(s, s.records[p].id);
    }
  }

  lemma RegisterKeepsInv(s: State, key: int, size: nat, mode: Mode, pages: Pages)
    requires Inv(s) && (pages.Pages? ==> pages.obj !in s.heap)
    requires key == IPC_PRIVATE || key !in s.keyToId
    ensures Inv(Register(s, key, size, mode, pages).0)
  {
    var _ := AllocIsFirstFree(s.segments.Keys, s.nextId);
    var (found, next) := AllocSpec(s.segments.Keys, s.nextId);
    if found.Some? && pages.Pages? {
      NewEntryKeepsInv(s, key, NewSegment(found.value, key, size, mode, pages.paddr), pages.obj, next);
    }
  }

  lemma NewEntryKeepsInv(s: State, key: int, seg: Segment, obj: nat, next: int)
    requires Inv(s) && obj !in s.heap && 0 < next <= I32_MAX
    requires key == IPC_PRIVATE || key !in s.keyToId
    requires 0 < seg.id <= I32_MAX && seg.id !in s.segments && seg.key == key && !seg.marked
    ensures Inv(State(s.heap[obj := seg], s.segments[seg.id := obj],
                      if key == IPC_PRIVATE then s.keyToId else s.keyToId[key := seg.id], next, s.records))
  {
    var s' := State(s.heap[obj := seg], s.segments[seg.id := obj],
                    if key == IPC_PRIVATE then s.keyToId else s.keyToId[key := seg.id], next, s.records);
    forall id | id in s.segments ensures id in s'.segments && Obj(s', id) == Obj(s, id) && OwnId(s', id) {
      assert OwnId(s, id);
    }
    assert Obj(s', seg.id) == seg && OwnId(s', seg.id);
    FreshHasNoRecords(s, obj);
    forall o | o in s'.heap ensures s'.heap[o].nattch >= |RecordsOf(s', o)| {
      assert RecordsOf(s', o) == RecordsOf(s, o);
    }
  }

  /** Changing an object without touching its id and key, when its count still
      covers its records and a marked one is still attached. */
  lemma UpdateKeepsInv(s: State, obj: nat, seg: Segment)
    requires Inv(s) && obj in s.heap && seg.id == s.heap[obj].id && seg.key == s.heap[obj].key
    requires seg.nattch >= |RecordsOf(s, obj)|
    requires seg.marked && obj in s.segments.Values ==> seg.nattch > 0
    ensures Inv(Update(s, obj, seg))
  {
    var s' := Update(s, obj, seg);
    forall id | id in s.segments
      ensures OwnId(s', id) && Obj(s', id).key == Obj(s, id).key && (Obj(s', id).marked ==> Obj(s', id).nattch > 0)
    {
      assert OwnId(s, id);
      assert s.segments[id] in s.segments.Values;
    }
    forall o | o in s'.heap ensures s'.heap[o].nattch >= |RecordsOf(s', o)| {
      assert RecordsOf(s', o) == RecordsOf(s, o);
    }
  }

  /** Unregistering a segment nobody has attached. */
  lemma RemoveKeepsInv(s: State, id: int)
    requires Registry(s) && Keys(s) && Recorded(s) && Counted(s) && id in s.segments && Obj(s, id).nattch == 0
    requires forall i :: i in s.segments && i != id && Obj(s, i).marked ==> Obj(s, i).nattch > 0
    ensures Inv(Remove(s, id).0)
  {
    var s' := Remove(s, id).0;
    assert OwnId(s, id);
    var obj := s.segments[id];
    assert RecordsOf(s, obj) == {};
    forall p | p in s.records ensures s.records[p].id != id {
      assert s.records[p].id == id ==> p in RecordsOf(s, obj);
    }
    forall i | i in s'.segments ensures OwnId(s', i) && Obj(s', i) == Obj(s, i) {
      assert OwnId(s, i);
    }
    forall o | o in s'.heap ensures s'.heap[o].nattch >= |RecordsOf(s', o)| {
      assert RecordsOf(s', o) == RecordsOf(s, o);
    }
  }

  lemma AddRecordKeepsInv(s: State, p: Place, id: int)
    requires Inv(s) && id in s.segments && Obj(s, id).nattch > |RecordsOf(s, s.segments[id])|
    ensures Inv(s.(records := s.records[p := Attach(id, s.segments[id])]))
  {
    var obj := s.segments[id];
    var s' := s.(records := s.records[p := Attach(id, obj)]);
    forall i | i in s.segments ensures OwnId(s', i) && Obj(s', i) == Obj(s, i) {
      assert OwnId(s, i);
    }
    forall o | o in s'.heap ensures s'.heap[o].nattch >= |RecordsOf(s', o)| {
      if o == obj {
        assert RecordsOf(s', o) <= RecordsOf(s, o) + {p};
        SubsetCount(RecordsOf(s', o), RecordsOf(s, o) + {p});
      } else {
        assert RecordsOf(s', o) <= RecordsOf(s, o);
        SubsetCount(RecordsOf(s', o), RecordsOf(s, o));
      }
    }
  }

  lemma {:induction false} SubsetCount<T>(a: set<T>, b: set<T>)
    requires a <= b
    ensures |a| <= |b|
  {
    if a != {} {
      var x :| x in a;
      SubsetCount(a - {x}, b - {x});
    }
  }

  /** Dropping records keeps everything: counts only have more slack. */
  lemma FewerRecordsKeepInv(s: State, rs: map<Place, Attach>)
    requires Inv(s) && forall p :: p in rs ==> p in s.records && rs[p] == s.records[p]
    ensures Inv(s.(records := rs))
  {
    var s' := s.(records := rs);
    forall i | i in s.segments ensures OwnId(s', i) && Obj(s', i) == Obj(s, i) {
      assert OwnId(s, i);
    }
    forall o | o in s'.heap ensures s'.heap[o].nattch >= |RecordsOf(s', o)| {
      SubsetCount(RecordsOf(s', o), RecordsOf(s, o));
    }
  }

  lemma SettleKeepsInv(s: State, pid: nat, id: int, shmaddr: nat, rnd: bool, layout: Layout)
    requires Inv(s) && id in s.segments && !Obj(s, id).marked
    requires Obj(s, id).nattch > |RecordsOf(s, s.segments[id])|
    ensures Inv(Settle(s, pid, id, s.segments[id], shmaddr, rnd, layout).0)
  {
    match ChooseAddr(shmaddr, rnd, layout) {
      case Nowhere(_) =>
      case There(a) =>
        if layout.mapOk {
          AddRecordKeepsInv(s, Place(pid, a), id);
        } else {
          UndoCountKeepsInv(s, id);
        }
    }
  }

  lemma UndoCountKeepsInv(s: State, id: int)
    requires Inv(s) && id in s.segments && !Obj(s, id).marked
    requires Obj(s, id).nattch > |RecordsOf(s, s.segments[id])|
    ensures Inv(DecAttach(s, s.segments[id]))
  {
    assert OwnId(s, id);
    var obj := s.segments[id];
    UpdateKeepsInv(s, obj, s.heap[obj].(nattch := s.heap[obj].nattch - 1));
  }

  lemma IncKeepsInv(s: State, id: int)
    requires Inv(s) && id in s.segments
    ensures
      var s1 := IncAttach(s, s.segments[id]);
      && Inv(s1) && s1.segments == s.segments && Obj(s1, id) == Obj(s, id).(nattch := Obj(s, id).nattch + 1)
      && RecordsOf(s1, s.segments[id]) == RecordsOf(s, s.segments[id])
      && Obj(s1, id).nattch > |RecordsOf(s1, s.segments[id])|
  {
    var obj := s.segments[id];
    assert OwnId(s, id);
    UpdateKeepsInv(s, obj, s.heap[obj].(nattch := s.heap[obj].nattch + 1));
    assert RecordsOf(IncAttach(s, obj), obj) == RecordsOf(s, obj);
  }

  lemma AttachKeepsInv(s: State, e: Event)
    requires Inv(s) && e.Shmat?
    ensures Inv(Apply(s, e).0)
  {
    if e.shmid in s.segments && ValidateSegment(Obj(s, e.shmid), e.rdonly).Ok? {
      IncKeepsInv(s, e.shmid);
      SettleKeepsInv(IncAttach(s, s.segments[e.shmid]), e.pid, e.shmid, e.shmaddr, e.rnd, e.layout);
    }
  }

  lemma DetachKeepsInv(s: State, e: Event)
    requires Inv(s) && e.Shmdt?
    ensures Inv(Apply(s, e).0)
  {
    var place := Place(e.pid, e.shmaddr);
    if place in s.records {
      var a := s.records[place];
      var s1 := s.(records := s.records - {place});
      FewerRecordsKeepInv(s, s.records - {place});
      assert OwnId(s, a.id);
      if e.unmapOk {
        var seg := s.heap[a.obj];
        assert RecordsOf(s1, a.obj) == RecordsOf(s, a.obj) - {place};
        assert place in RecordsOf(s, a.obj);
        assert seg.nattch > 0;
        DecKeepsInv(s1, a.id);
      }
    }
  }

  /** Decrementing a count that exceeds its records, and unregistering the
      segment if that was the last attachment of a marked one. */
  lemma DecKeepsInv(s: State, id: int)
    requires Inv(s) && id in s.segments && Obj(s, id).nattch > |RecordsOf(s, s.segments[id])|
    ensures
      var obj := s.segments[id];
      var s2 := DecAttach(s, obj);
      Inv(if At(s2, obj).marked && At(s2, obj).nattch == 0 then Remove(s2, id).0 else s2)
  {
    assert OwnId(s, id);
    var obj := s.segments[id];
    var seg := s.heap[obj].(nattch := s.heap[obj].nattch - 1);
    var s2 := DecAttach(s, obj);
    assert s2 == Update(s, obj, seg);
    if seg.marked && seg.nattch == 0 {
      var plain := seg.(marked := false);
      UpdateKeepsInv(s, obj, plain);
      var t := Update(s, obj, plain);
      forall i | i in s.segments ensures OwnId(s2, i) && Obj(s2, i).key == Obj(t, i).key {
        assert OwnId(t, i);
      }
      forall o | o in s2.heap ensures s2.heap[o].nattch >= |RecordsOf(s2, o)| {
        assert RecordsOf(s2, o) == RecordsOf(t, o);
        assert s2.heap[o].nattch == t.heap[o].nattch;
      }
      forall i | i in s2.segments && i != id && Obj(s2, i).marked ensures Obj(s2, i).nattch > 0 {
        assert OwnId(s, i);
      }
      RemoveKeepsInv(s2, id);
    } else {
      UpdateKeepsInv(s, obj, seg);
    }
  }

  lemma RmidKeepsInv(s: State, id: int)
    requires Inv(s)
    ensures Inv(RmidSpec(s, id).0)
  {
    if id in s.segments {
      assert OwnId(s, id);
      var obj := s.segments[id];
      var seg := s.heap[obj];
      var s1 := Update(s, obj, seg.(marked := true));
      if seg.nattch == 0 {
        forall i | i in s.segments ensures OwnId(s1, i) && Obj(s1, i).key == Obj(s, i).key {
          assert OwnId(s, i);
        }
        forall o | o in s1.heap ensures s1.heap[o].nattch >= |RecordsOf(s1, o)| {
          assert RecordsOf(s1, o) == RecordsOf(s, o);
          assert s1.heap[o].nattch == s.heap[o].nattch;
        }
        forall i | i in s1.segments && i != id && Obj(s1, i).marked ensures Obj(s1, i).nattch > 0 {
          assert OwnId(s, i);
        }
        RemoveKeepsInv(s1, id);
      } else {
        UpdateKeepsInv(s, obj, seg.(marked := true));
      }
    }
  }

  lemma StepKeepsInv(s: State, e: Event)
    requires Inv(s) && Enabled(s, e)
    ensures Inv(Apply(s, e).0)
  {
    match e {
      case Shmget(key, size, flags, pages) =>
        if key == IPC_PRIVATE || key !in s.keyToId {
          RegisterKeepsInv(s, key, size, flags.mode, pages);
        }
      case Shmat(_, _, _, _, _, _) => AttachKeepsInv(s, e);
      case Shmdt(_, _, _) => DetachKeepsInv(s, e);
      case Rmid(id) => RmidKeepsInv(s, id);
      case SetPerm(id, buf) => SetPermKeepsInv(s, id, buf);
      case Exit(pid) => FewerRecordsKeepInv(s, map p | p in s.records && p.pid != pid :: s.records[p]);
      case _ =>
    }
  }

  lemma SetPermKeepsInv(s: State, id: int, buf: Option<Perm>)
    requires Inv(s)
    ensures Inv(Apply(s, SetPerm(id, buf)).0)
  {
    if id in s.segments && buf.Some? {
      assert OwnId(s, id);
      var p, obj := buf.value, s.segments[id];
      UpdateKeepsInv(s, obj, s.heap[obj].(uid := p.uid, gid := p.gid, mode := p.mode));
    }
  }

  // ---------------------------------------------------------------- every run

  ghost predicate IsRun(ss: seq<State>, es: seq<Event>) {
    && |ss| == |es| + 1 && ss[0] == Init
    && forall i :: 0 <= i < |es| ==> Enabled(ss[i], es[i]) && ss[i + 1] == Apply(ss[i], es[i]).0
  }

  lemma InitInv()
    ensures Inv(Init)
  {
  }

  lemma {:induction false} RunKeepsInv(ss: seq<State>, es: seq<Event>, i: nat)
    requires IsRun(ss, es) && i < |ss|
    ensures Inv(ss[i])
  {
    InitInv();
    if i > 0 {
      RunKeepsInv(ss, es, i - 1);
      StepKeepsInv(ss[i - 1], es[i - 1]);
    }
  }

  /** In every reachable state the two maps are mutually inverse, so the branch
      of `get_or_create` that meets a dangling key is never taken. */
  lemma MapsAreInverse(ss: seq<State>, es: seq<Event>, i: nat, key: int, id: int)
    requires IsRun(ss, es) && i < |ss|
    ensures key in ss[i].keyToId && ss[i].keyToId[key] == id
      <==> key != IPC_PRIVATE && id in ss[i].segments && Obj(ss[i], id).key == key
    ensures id in ss[i].segments ==> 0 < id <= I32_MAX && Obj(ss[i], id).id == id
  {
    RunKeepsInv(ss, es, i);
    assert id in ss[i].segments ==> OwnId(ss[i], id);
  }

  /** A recorded segment is registered, and its count covers its records. */
  lemma RecordedIsRegistered(ss: seq<State>, es: seq<Event>, i: nat, p: Place)
    requires IsRun(ss, es) && i < |ss| && p in ss[i].records
    ensures
      var (s, a) := (ss[i], ss[i].records[p]);
      && a.id in s.segments && s.segments[a.id] == a.obj
      && Obj(s, a.id).nattch >= |RecordsOf(s, a.obj)| >= 1
  {
    RunKeepsInv(ss, es, i);
    assert OwnId(ss[i], ss[i].records[p].id);
    assert p in RecordsOf(ss[i], ss[i].records[p].obj);
  }
}
