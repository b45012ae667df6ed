/**
 Lifetimes of shared-memory segments over whole runs: a key keeps its id until
 the segment is removed, deletion waits for the last detach and then happens at
 once, and attach counts that leak on error paths pin a segment for good.
 */
module ShmLifetimes {
  import opened Common
  import opened Shm
  import opened ShmRuns

  ghost predicate RegisteredAs(s: State, id: int, obj: nat) {
    id in s.segments && s.segments[id] == obj
  }

  // -------------------------------------------------------- leaving the registry

  lemma RegisterFrame(s: State, key: int, size: nat, mode: Mode, pages: Pages, id: int)
    requires Inv(s) && id in s.segments && (pages.Pages? ==> pages.obj !in s.heap)
    ensures
      var s' := Register(s, key, size, mode, pages).0;
      && RegisteredAs(s', id, s.segments[id]) && At(s', s.segments[id]) == At(s, s.segments[id])
      && s'.records == s.records
  {
    var _ := AllocIsFirstFree(s.segments.Keys, s.nextId);
    assert OwnId(s, id);
  }

  lemma ShmatFrame(s: State, e: Event, obj: nat)
    requires e.Shmat?
    ensures
      var s' := Apply(s, e).0;
      && s'.segments == s.segments && s'.keyToId == s.keyToId && At(s', obj).marked == At(s, obj).marked
  {
  }

  /** The registry loses a segment only when it is marked and has count zero. */
  lemma LeavesOnlyAtZero(s: State, e: Event, id: int)
    requires Inv(s) && Enabled(s, e) && id in s.segments
    ensures
      var (s', obj) := (Apply(s, e).0, s.segments[id]);
      RegisteredAs(s', id, obj) || (id !in s'.segments && At(s', obj).marked && At(s', obj).nattch == 0)
  {
    var obj := s.segments[id];
    assert OwnId(s, id);
    match e {
      case Shmget(key, size, flags, pages) => RegisterFrame(s, key, size, flags.mode, pages, id);
      case Shmat(_, _, _, _, _, _) => ShmatFrame(s, e, obj);
      case Shmdt(pid, addr, _) =>
        if Place(pid, addr) in s.records {
          assert OwnId(s, s.records[Place(pid, addr)].id);
        }
      case Rmid(i) => if i in s.segments { assert OwnId(s, i); }
      case _ =>
    }
  }

  lemma MarkedStays(s: State, id: int, obj: nat)
    requires Inv(s) && RegisteredAs(s, id, obj) && At(s, obj).marked
    ensures At(s, obj).nattch > 0
  {
    assert Obj(s, id) == At(s, obj);
  }

  /** A registered segment leaves the registry only marked and with count zero,
      and then in the very step that brings it there. */
  lemma LeavesAtZero(s: State, e: Event, id: int)
    requires Inv(s) && Enabled(s, e) && id in s.segments
    ensures
      var (s', obj) := (Apply(s, e).0, s.segments[id]);
      && (RegisteredAs(s', id, obj) || (id !in s'.segments && At(s', obj).marked && At(s', obj).nattch == 0))
      && (At(s', obj).marked && At(s', obj).nattch == 0 ==> id !in s'.segments)
  {
    var (s', obj) := (Apply(s, e).0, s.segments[id]);
    LeavesOnlyAtZero(s, e, id);
    StepKeepsInv(s, e);
    if RegisteredAs(s', id, obj) && At(s', obj).marked {
      MarkedStays(s', id, obj);
    }
  }

  /** Calls that neither attach nor detach. */
  lemma QuietFrame(s: State, e: Event, obj: nat)
    requires Enabled(s, e) && !e.Shmat? && !e.Shmdt?
    ensures At(Apply(s, e).0, obj).nattch == At(s, obj).nattch
    ensures !e.Exit? ==> Apply(s, e).0.records == s.records
    ensures RecordsOf(Apply(s, e).0, obj) <= RecordsOf(s, obj)
  {
    match e {
      case Shmget(key, size, flags, pages) =>
      case Rmid(_) =>
      case Stat(_, _) =>
      case SetPerm(_, _) =>
      case BadCtl(_) =>
      case Exit(_) =>
    }
  }

  lemma OtherShmat(s: State, e: Event, obj: nat)
    requires e.Shmat? && e.shmid in s.segments && s.segments[e.shmid] != obj
    ensures At(Apply(s, e).0, obj) == At(s, obj) && RecordsOf(Apply(s, e).0, obj) <= RecordsOf(s, obj)
    ensures obj in s.heap ==> obj in Apply(s, e).0.heap
  {
  }

  lemma StaysMarked(s: State, e: Event, obj: nat)
    requires Enabled(s, e) && obj in s.heap && At(s, obj).marked && !e.Shmat? && !e.Shmdt?
    ensures At(Apply(s, e).0, obj).marked
  {
    match e {
      case Shmget(key, size, flags, pages) =>
      case Rmid(_) =>
      case Stat(_, _) =>
      case SetPerm(_, _) =>
      case BadCtl(_) =>
      case Exit(_) =>
    }
  }

  lemma ShmdtOnlyLowers(s: State, e: Event, obj: nat)
    requires e.Shmdt?
    ensures
      var s' := Apply(s, e).0;
      && At(s', obj).marked == At(s, obj).marked && At(s', obj).nattch <= At(s, obj).nattch
      && RecordsOf(s', obj) <= RecordsOf(s, obj)
  {
  }

  /** A marked segment gains no attachments: shmat refuses it, and its records
      and its count only shrink. */
  lemma MarkedGainsNothing(s: State, e: Event, id: int)
    requires Inv(s) && Enabled(s, e) && id in s.segments && Obj(s, id).marked
    ensures
      var (s', obj) := (Apply(s, e).0, s.segments[id]);
      && At(s', obj).marked && At(s', obj).nattch <= At(s, obj).nattch
      && RecordsOf(s', obj) <= RecordsOf(s, obj)
      && (e.Shmat? && e.shmid == id ==> Apply(s, e).1.Err?)
  {
    var obj := s.segments[id];
    assert OwnId(s, id);
    if e.Shmat? {
      if e.shmid in s.segments && s.segments[e.shmid] != obj {
        OtherShmat(s, e, obj);
      } else {
        assert Apply(s, e).0 == s;
      }
    } else if e.Shmdt? {
      ShmdtOnlyLowers(s, e, obj);
    } else {
      QuietFrame(s, e, obj);
      StaysMarked(s, e, obj);
    }
  }

  // --------------------------------------------------------- a key keeps its id

  ghost predicate Bound(s: State, key: int, id: int) {
    key in s.keyToId && s.keyToId[key] == id && id in s.segments && Obj(s, id).key == key && !Obj(s, id).marked
  }

  lemma BoundStep(s: State, e: Event, key: int, id: int)
    requires Inv(s) && Enabled(s, e) && Bound(s, key, id) && e != Rmid(id)
    ensures Bound(Apply(s, e).0, key, id)
  {
    var (s', obj) := (Apply(s, e).0, s.segments[id]);
    assert OwnId(s, id);
    StepKeepsInv(s, e);
    LeavesAtZero(s, e, id);
    match e {
      case Shmget(k, size, flags, pages) => RegisterFrame(s, k, size, flags.mode, pages, id);
      case Shmat(_, _, _, _, _, _) => ShmatFrame(s, e, obj);
      case Shmdt(pid, addr, _) =>
        if Place(pid, addr) in s.records {
          assert OwnId(s, s.records[Place(pid, addr)].id);
        }
      case Rmid(i) => if i in s.segments { assert OwnId(s, i); }
      case SetPerm(i, _) => if i in s.segments { assert OwnId(s, i); }
      case _ =>
    }
  }

  lemma {:induction false} BoundUntilRmid(ss: seq<State>, es: seq<Event>, i: nat, j: nat, key: int, id: int)
    requires IsRun(ss, es) && i <= j < |ss| && Bound(ss[i], key, id)
    requires forall k :: i <= k < j ==> es[k] != Rmid(id)
    ensures Bound(ss[j], key, id)
    decreases j - i
  {
    if i < j {
      BoundUntilRmid(ss, es, i, j - 1, key, id);
      RunKeepsInv(ss, es, j - 1);
      BoundStep(ss[j - 1], es[j - 1], key, id);
    }
  }

  /** Two `shmget` calls for one key, without a removal of that id in between,
      return the same id. */
  lemma SameKeySameId(ss: seq<State>, es: seq<Event>, i: nat, j: nat)
    requires IsRun(ss, es) && i < j < |es| && es[i].Shmget? && es[j].Shmget?
    requires es[i].key == es[j].key != IPC_PRIVATE && Apply(ss[i], es[i]).1.Ok?
    requires forall k :: i < k < j ==> es[k] != Rmid(Apply(ss[i], es[i]).1.value)
    requires 0 < es[j].size <= MAX_SHM_SIZE && !es[j].flags.excl
    ensures Apply(ss[j], es[j]).1 == Apply(ss[i], es[i]).1
  {
    var key, id := es[i].key, Apply(ss[i], es[i]).1.value;
    RunKeepsInv(ss, es, i);
    RunKeepsInv(ss, es, i + 1);
    GetBinds(ss[i], es[i]);
    BoundUntilRmid(ss, es, i + 1, j, key, id);
    RunKeepsInv(ss, es, j);
    assert OwnId(ss[j], id);
  }

  lemma GetBinds(s: State, e: Event)
    requires Inv(s) && Enabled(s, e) && e.Shmget? && e.key != IPC_PRIVATE && Apply(s, e).1.Ok?
    ensures Bound(Apply(s, e).0, e.key, Apply(s, e).1.value)
  {
    if e.key in s.keyToId {
      assert OwnId(s, s.keyToId[e.key]);
    } else {
      var _ := AllocIsFirstFree(s.segments.Keys, s.nextId);
    }
  }

  // -------------------------------------------------------------------- leaks

  /** How far an attach count is above the attachments on record. */
  function Slack(s: State, obj: nat): int {
    At(s, obj).nattch - |RecordsOf(s, obj)|
  }

  /** `shmat` got as far as counting. */
  predicate Counts(s: State, e: Event) {
    && e.Shmat? && e.shmid in s.segments && e.shmid >= 0 && (e.rnd || e.shmaddr % PAGE_SIZE == 0)
    && ValidateSegment(Obj(s, e.shmid), e.rdonly).Ok?
  }

  /** One if the record at this place is for the segment. */
  function RecordAt(s: State, p: Place, obj: nat): nat {
    if p in s.records && s.records[p].obj == obj then 1 else 0
  }

  /** The records a process holds for a segment. */
  function RecordsIn(s: State, pid: nat, obj: nat): (ps: set<Place>) {
    set p | p in s.records && p.pid == pid && s.records[p].obj == obj
  }

  /** How many counts of a segment a call leaves behind without a record: a counted
      attach that finds no address, a record overwritten by an attach at the same
      place, a record given up although the unmapping failed, and all the records of
      a process that exits. */
  function Leaked(s: State, e: Event, obj: nat): nat {
    match e
    case Shmat(pid, id, addr, rnd, _, layout) =>
      if !Counts(s, e) then 0
      else (match ChooseAddr(addr, rnd, layout)
        case Nowhere(_) => if s.segments[id] == obj then 1 else 0
        case There(a) => if layout.mapOk then RecordAt(s, Place(pid, a), obj) else 0)
    case Shmdt(pid, addr, unmapOk) => if unmapOk then 0 else RecordAt(s, Place(pid, addr), obj)
    case Exit(pid) => |RecordsIn(s, pid, obj)|
    case _ => 0
  }

  lemma CountingMovesSlack(s: State, target: nat, obj: nat)
    ensures Slack(IncAttach(s, target), obj) == Slack(s, obj) + if obj == target then 1 else 0
    ensures At(s, target).nattch > 0 ==>
      Slack(DecAttach(s, target), obj) == Slack(s, obj) - if obj == target then 1 else 0
  {
    assert RecordsOf(IncAttach(s, target), obj) == RecordsOf(s, obj);
    assert RecordsOf(DecAttach(s, target), obj) == RecordsOf(s, obj);
  }

  /** A new record uses up one of its own segment's slack, and gives one back to the
      segment whose record it overwrites. */
  lemma RecordingMovesSlack(s: State, s': State, p: Place, id: int, target: nat, obj: nat)
    requires s' == s.(records := s.records[p := Attach(id, target)])
    ensures Slack(s', obj) == Slack(s, obj) + RecordAt(s, p, obj) - if obj == target then 1 else 0
  {
    var ps := RecordsOf(s, obj);
    RecordsAfter(s, s', p, id, target, obj);
    OneMore(ps, p);
    assert p in ps <==> RecordAt(s, p, obj) == 1;
  }

  lemma RecordsAfter(s: State, s': State, p: Place, id: int, target: nat, obj: nat)
    requires s' == s.(records := s.records[p := Attach(id, target)])
    ensures RecordsOf(s', obj) == if obj == target then RecordsOf(s, obj) + {p} else RecordsOf(s, obj) - {p}
  {
    forall q: Place ensures q in RecordsOf(s', obj) <==> (if q == p then obj == target else q in RecordsOf(s, obj)) {
    }
  }

  lemma OneMore(ps: set<Place>, p: Place)
    ensures |ps + {p}| == |ps| + if p in ps then 0 else 1
    ensures |ps - {p}| == |ps| - if p in ps then 1 else 0
  {
    if p in ps {
      assert ps + {p} == ps;
    } else {
      assert ps - {p} == ps;
    }
  }

  lemma UnrecordingMovesSlack(s: State, p: Place, obj: nat)
    ensures Slack(s.(records := s.records - {p}), obj) == Slack(s, obj) + RecordAt(s, p, obj)
  {
    assert RecordsOf(s.(records := s.records - {p}), obj) == RecordsOf(s, obj) - {p};
    OneMore(RecordsOf(s, obj), p);
  }

  lemma ShmatMovesSlack(s: State, e: Event, obj: nat)
    requires e.Shmat?
    ensures Slack(Apply(s, e).0, obj) == Slack(s, obj) + Leaked(s, e, obj)
  {
    if !Counts(s, e) {
      assert Apply(s, e).0 == s;
    } else {
      var target := s.segments[e.shmid];
      var s1 := IncAttach(s, target);
      CountingMovesSlack(s, target, obj);
      match ChooseAddr(e.shmaddr, e.rnd, e.layout) {
        case Nowhere(_) =>
          assert Apply(s, e).0 == s1;
        case There(a) =>
          if e.layout.mapOk {
            RecordingMovesSlack(s1, Apply(s, e).0, Place(e.pid, a), e.shmid, target, obj);
          } else {
            CountingMovesSlack(s1, target, obj);
          }
      }
    }
  }

  lemma ShmdtMovesSlack(s: State, e: Event, obj: nat)
    requires Inv(s) && e.Shmdt?
    ensures Slack(Apply(s, e).0, obj) == Slack(s, obj) + Leaked(s, e, obj)
  {
    var place := Place(e.pid, e.shmaddr);
    if place in s.records {
      var a := s.records[place];
      var s1 := s.(records := s.records - {place});
      UnrecordingMovesSlack(s, place, obj);
      if e.unmapOk {
        RecordedIsCounted(s, place);
        CountingMovesSlack(s1, a.obj, obj);
        RemovingKeepsSlack(DecAttach(s1, a.obj), a.id, obj);
      }
    }
  }

  lemma RecordedIsCounted(s: State, p: Place)
    requires Inv(s) && p in s.records
    ensures At(s, s.records[p].obj).nattch > 0
  {
    var a := s.records[p];
    assert OwnId(s, a.id);
    assert p in RecordsOf(s, a.obj);
  }

  lemma RemovingKeepsSlack(s: State, id: int, obj: nat)
    ensures Slack(Remove(s, id).0, obj) == Slack(s, obj)
  {
    assert RecordsOf(Remove(s, id).0, obj) == RecordsOf(s, obj);
  }

  lemma ExitMovesSlack(s: State, pid: nat, obj: nat)
    ensures Slack(Apply(s, Exit(pid)).0, obj) == Slack(s, obj) + Leaked(s, Exit(pid), obj)
  {
    var gone := RecordsIn(s, pid, obj);
    assert RecordsOf(Apply(s, Exit(pid)).0, obj) == RecordsOf(s, obj) - gone;
    assert RecordsOf(s, obj) == RecordsOf(Apply(s, Exit(pid)).0, obj) + gone;
  }

  lemma OtherCallsKeepSlack(s: State, e: Event, obj: nat)
    requires Enabled(s, e) && !e.Shmat? && !e.Shmdt? && !e.Exit?
    ensures Slack(Apply(s, e).0, obj) == Slack(s, obj)
  {
    QuietFrame(s, e, obj);
    assert RecordsOf(Apply(s, e).0, obj) == RecordsOf(s, obj);
  }

  /** Every call moves the slack of every segment by exactly what it leaks. */
  lemma SlackMovesExactly(s: State, e: Event, obj: nat)
    requires Inv(s) && Enabled(s, e)
    ensures Slack(Apply(s, e).0, obj) == Slack(s, obj) + Leaked(s, e, obj)
  {
    if e.Shmat? {
      ShmatMovesSlack(s, e, obj);
    } else if e.Shmdt? {
      ShmdtMovesSlack(s, e, obj);
    } else if e.Exit? {
      ExitMovesSlack(s, e.pid, obj);
    } else {
      OtherCallsKeepSlack(s, e, obj);
    }
  }

  /** What the first `n` calls of a run have leaked of a segment. */
  function TotalLeaked(ss: seq<State>, es: seq<Event>, n: nat, obj: nat): nat
    requires n <= |es| <= |ss|
  {
    if n == 0 then 0 else TotalLeaked(ss, es, n - 1, obj) + Leaked(ss[n - 1], es[n - 1], obj)
  }

  lemma {:induction false} NothingLeaked(ss: seq<State>, es: seq<Event>, n: nat, obj: nat)
    requires n <= |es| <= |ss|
    ensures TotalLeaked(ss, es, n, obj) == 0 <==> forall k :: 0 <= k < n ==> Leaked(ss[k], es[k], obj) == 0
  {
    if n > 0 {
      NothingLeaked(ss, es, n - 1, obj);
    }
  }

  lemma {:induction false} SlackIsTotalLeaked(ss: seq<State>, es: seq<Event>, n: nat, obj: nat)
    requires IsRun(ss, es) && n < |ss|
    ensures Slack(ss[n], obj) == TotalLeaked(ss, es, n, obj)
  {
    if n == 0 {
      assert RecordsOf(Init, obj) == {};
    } else {
      SlackIsTotalLeaked(ss, es, n - 1, obj);
      RunKeepsInv(ss, es, n - 1);
      SlackMovesExactly(ss[n - 1], es[n - 1], obj);
    }
  }

  /** In every state of every run a segment's attach count is the number of its
      records iff none of the calls so far leaked one. */
  lemma CountIsRecordsExactly(ss: seq<State>, es: seq<Event>, n: nat, obj: nat)
    requires IsRun(ss, es) && n < |ss|
    ensures At(ss[n], obj).nattch == |RecordsOf(ss[n], obj)| + TotalLeaked(ss, es, n, obj)
    ensures At(ss[n], obj).nattch == |RecordsOf(ss[n], obj)|
      <==> forall k :: 0 <= k < n ==> Leaked(ss[k], es[k], obj) == 0
  {
    SlackIsTotalLeaked(ss, es, n, obj);
    NothingLeaked(ss, es, n, obj);
  }

  /** A run that leaks: a new segment, and an attach that meets occupied addresses. */
  lemma LeakHappens() returns (ss: seq<State>, es: seq<Event>)
    ensures IsRun(ss, es) && |es| == 2 && Leaked(ss[1], es[1], 9) == 1
    ensures 1 in ss[2].segments && ss[2].segments[1] == 9 && ss[2].records == map[] && Slack(ss[2], 9) == 1
  {
    var get := Shmget(IPC_PRIVATE, PAGE_SIZE, GetFlags(true, false, {6, 7, 8}), Pages(9, PAGE_SIZE));
    var at := Shmat(1, 1, 0, false, false, Layout(true, None, true));
    var s1 := Apply(Init, get).0;
    ss, es := [Init, s1, Apply(s1, at).0], [get, at];
    assert s1.segments == map[1 := 9] && s1.records == map[];
    assert Counts(s1, at) && Leaked(s1, at, 9) == 1;
    SlackIsTotalLeaked(ss, es, 2, 9);
    assert TotalLeaked(ss, es, 1, 9) == 0;
  }

  /** A registered segment whose count has leaked is never unregistered again,
      whatever the rest of the run does. */
  lemma {:induction false} LeakedForGood(ss: seq<State>, es: seq<Event>, i: nat, j: nat, id: int)
    requires IsRun(ss, es) && i <= j < |ss| && id in ss[i].segments && Slack(ss[i], ss[i].segments[id]) > 0
    ensures RegisteredAs(ss[j], id, ss[i].segments[id]) && Slack(ss[j], ss[i].segments[id]) > 0
    decreases j - i
  {
    if i < j {
      LeakedForGood(ss, es, i, j - 1, id);
      var s, e, obj := ss[j - 1], es[j - 1], ss[i].segments[id];
      RunKeepsInv(ss, es, j - 1);
      assert OwnId(s, id);
      SlackMovesExactly(s, e, obj);
      LeavesAtZero(s, e, id);
    }
  }
}
