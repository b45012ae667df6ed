/**
 What each shared-memory call does in a state that satisfies the invariant: when
 it gives which answer, what changes, and that nothing else does.  Over runs, what
 IPC_RMID means for the rest of a segment's life.
 */
module ShmCalls {
  import opened Common
  import opened Shm
  import opened ShmRuns
  import opened ShmLifetimes

  // -------------------------------------------------------------------- shmget

  predicate BadSize(key: int, size: nat) {
    size > MAX_SHM_SIZE || (size == 0 && key != IPC_PRIVATE)
  }

  predicate Known(s: State, key: int) {
    key != IPC_PRIVATE && key in s.keyToId
  }

  /** No id is to be had: too many segments, or a thousand ids in a row in use. */
  ghost predicate NoIdLeft(s: State) {
    |s.segments.Keys| >= I32_MAX / 2 || Taken(s.segments.Keys, s.nextId, MAX_ATTEMPTS)
  }

  /** A new segment under a new id, empty and unmarked, found again by its key. */
  ghost predicate Created(s: State, s': State, key: int, size: nat, mode: Mode, obj: nat, id: int) {
    && 0 < id <= I32_MAX && id !in s.segments && obj !in s.heap
    && s'.segments == s.segments[id := obj] && s'.records == s.records
    && s'.keyToId == (if key == IPC_PRIVATE then s.keyToId else s.keyToId[key := id])
    && obj in s'.heap && s'.heap == s.heap[obj := s'.heap[obj]]
    && var seg := s'.heap[obj];
    && seg.id == id && seg.key == key && seg.segsz == size && seg.mode == mode
    && seg.size % PAGE_SIZE == 0 && size <= seg.size < size + PAGE_SIZE
    && seg.nattch == 0 && !seg.marked && seg.uid == 0 && seg.gid == 0
  }

  lemma AlignedUp(n: nat)
    ensures AlignUp4k(n) % PAGE_SIZE == 0 && n <= AlignUp4k(n) < n + PAGE_SIZE
  {
  }

  lemma AllocDecides(s: State)
    requires 0 < s.nextId <= I32_MAX
    ensures AllocSpec(s.segments.Keys, s.nextId).0.None? <==> NoIdLeft(s)
  {
    var n := AllocIsFirstFree(s.segments.Keys, s.nextId);
  }

  lemma RegisterIsExact(s: State, key: int, size: nat, mode: Mode, pages: Pages)
    requires Inv(s) && (pages.Pages? ==> pages.obj !in s.heap)
    ensures
      var (s', r) := Register(s, key, size, mode, pages);
      && (r == Err(ENOMEM) <==> NoIdLeft(s) || pages.NoPages?)
      && (r == Err(ENOMEM) ==> s' == s.(nextId := s'.nextId))
      && (r != Err(ENOMEM) ==> r.Ok? && pages.Pages? && Created(s, s', key, size, mode, pages.obj, r.value))
  {
    AllocDecides(s);
    AlignedUp(size);
    var n := AllocIsFirstFree(s.segments.Keys, s.nextId);
  }

  /** `shmget`: every error exactly when it is due and without effect on segments; a
      known key yields its id; otherwise a new segment. */
  lemma ShmgetIsExact(s: State, key: int, size: nat, flags: GetFlags, pages: Pages)
    requires Inv(s) && Enabled(s, Shmget(key, size, flags, pages))
    ensures
      var (s', r) := Apply(s, Shmget(key, size, flags, pages));
      var fine := !BadSize(key, size);
      var makes := fine && !Known(s, key) && (key == IPC_PRIVATE || flags.create);
      && (r == Err(EINVAL) <==> !fine)
      && (r == Err(EEXIST) <==> fine && Known(s, key) && flags.excl)
      && (r == Err(ENOENT) <==>
        && fine && key != IPC_PRIVATE
        && (if Known(s, key) then !flags.excl && Obj(s, s.keyToId[key]).marked else !flags.create))
      && (r == Err(ENOMEM) <==> makes && (NoIdLeft(s) || pages.NoPages?))
      && (r.Ok? && Known(s, key) ==> r.value == s.keyToId[key])
      && (r.Ok? && !Known(s, key) ==> pages.Pages? && Created(s, s', key, size, flags.mode, pages.obj, r.value))
      && (!makes ==> s' == s) && (r.Err? ==> s' == s.(nextId := s'.nextId))
  {
    if Known(s, key) {
      assert OwnId(s, s.keyToId[key]);
    } else {
      RegisterIsExact(s, key, size, flags.mode, pages);
    }
  }

  // --------------------------------------------------------------------- shmat

  /** The permission bits of the caller, who is user 0 in group 0: the owner's,
      the group's or everybody's. */
  function ReadBit(seg: Segment): nat {
    if seg.uid == 0 then 8 else if seg.gid == 0 then 5 else 2
  }

  /** With the read bit, a read-only attach is allowed and one for writing iff the
      write bit is there too; without it neither is. */
  lemma WriteBitDecides(seg: Segment, rdonly: bool)
    requires !seg.marked && Sane(seg)
    ensures ValidateSegment(seg, rdonly).Ok? <==>
      ReadBit(seg) in seg.mode && (!rdonly ==> ReadBit(seg) - 1 in seg.mode)
    ensures !ValidateSegment(seg, rdonly).Ok? ==> ValidateSegment(seg, rdonly) == Err(EACCES)
  {
  }

  /** What stops an attach before it counts, in the order it is looked at. */
  function Obstacle(s: State, shmid: int, shmaddr: nat, rnd: bool, rdonly: bool): Option<Errno> {
    if shmid < 0 || (!rnd && shmaddr % PAGE_SIZE != 0) then Some(EINVAL)
    else if shmid !in s.segments then Some(ENOENT)
    else
      var seg := Obj(s, shmid);
      if seg.marked then Some(EIDRM)
      else if !Sane(seg) then Some(EINVAL)
      else if ReadBit(seg) !in seg.mode || (!rdonly && ReadBit(seg) - 1 !in seg.mode) then Some(EACCES)
      else None
  }

  /** The address an attach gets: the given one rounded down to its page, or the free
      area the address space names. */
  ghost predicate Placed(shmaddr: nat, rnd: bool, layout: Layout, a: nat) {
    if rnd then shmaddr != 0 && a % PAGE_SIZE == 0 && a <= shmaddr < a + PAGE_SIZE
    else !layout.occupied && layout.free == Some(a)
  }

  lemma ChoiceIsExact(shmaddr: nat, rnd: bool, layout: Layout)
    ensures
      var c := ChooseAddr(shmaddr, rnd, layout);
      && (c.There? ==> Placed(shmaddr, rnd, layout, c.addr))
      && (c.Nowhere? ==> forall a: nat :: !Placed(shmaddr, rnd, layout, a))
      && (c.Nowhere? ==> c.errno == if rnd || layout.occupied then EINVAL else ENOMEM)
  {
  }

  lemma UncountedAgain(s: State, obj: nat)
    requires obj in s.heap
    ensures DecAttach(IncAttach(s, obj), obj) == s
  {
    assert DecAttach(IncAttach(s, obj), obj).heap == s.heap;
  }

  /** `shmat`: it succeeds iff nothing stands in its way, an address is found and the
      mapping works; then the count is one higher and the record says so.  A call
      that fails makes no record, and touches nothing at all if it was stopped before
      counting or could not map. */
  lemma ShmatIsExact(s: State, pid: nat, shmid: int, shmaddr: nat, rnd: bool, rdonly: bool, layout: Layout)
    requires Inv(s)
    ensures
      var (s', r) := Apply(s, Shmat(pid, shmid, shmaddr, rnd, rdonly, layout));
      var o := Obstacle(s, shmid, shmaddr, rnd, rdonly);
      && (o.Some? ==> r == Err(o.value) && s' == s)
      && (r.Ok? <==> o.None? && layout.mapOk && exists a: nat :: Placed(shmaddr, rnd, layout, a))
      && (r.Ok? ==>
        && r.value >= 0 && Placed(shmaddr, rnd, layout, r.value)
        && var (obj, seg) := (s.segments[shmid], Obj(s, shmid));
        s' == s.(heap := s.heap[obj := seg.(nattch := seg.nattch + 1)],
                 records := s.records[Place(pid, r.value) := Attach(shmid, obj)]))
      && (r.Err? ==> s'.records == s.records && s'.segments == s.segments && s'.keyToId == s.keyToId)
      && (r == Err(EOTHER) ==> s' == s)
  {
    if Obstacle(s, shmid, shmaddr, rnd, rdonly).None? {
      assert OwnId(s, shmid);
      var obj := s.segments[shmid];
      WriteBitDecides(At(s, obj), rdonly);
      UncountedAgain(s, obj);
      ChoiceIsExact(shmaddr, rnd, layout);
    }
  }

  // --------------------------------------------------------------------- shmdt

  /** `shmdt`: EINVAL iff nothing is recorded there.  Otherwise the record goes; if the
      unmapping works the count is one lower, and a marked segment whose count has
      reached zero leaves the registry with its key. */
  lemma ShmdtIsExact(s: State, pid: nat, shmaddr: nat, unmapOk: bool)
    requires Inv(s)
    ensures
      var (s', r) := Apply(s, Shmdt(pid, shmaddr, unmapOk));
      var p := Place(pid, shmaddr);
      && (r == Err(EINVAL) <==> p !in s.records) && (p !in s.records ==> s' == s)
      && (p in s.records && !unmapOk ==> r == Err(EOTHER) && s' == s.(records := s.records - {p}))
      && (p in s.records && unmapOk ==>
        var a := s.records[p];
        var seg := At(s, a.obj);
        var gone := seg.marked && seg.nattch == 1;
        && r == Ok(0) && seg.nattch > 0
        && s' == State(s.heap[a.obj := seg.(nattch := seg.nattch - 1)],
                       if gone then s.segments - {a.id} else s.segments,
                       if gone then s.keyToId - {seg.key} else s.keyToId, s.nextId, s.records - {p}))
  {
    var p := Place(pid, shmaddr);
    if p in s.records {
      RecordedIsCounted(s, p);
      assert OwnId(s, s.records[p].id);
      NoPrivateKey(s);
    }
  }

  lemma NoPrivateKey(s: State)
    requires Inv(s)
    ensures s.keyToId - {IPC_PRIVATE} == s.keyToId
  {
  }

  // -------------------------------------------------------------------- shmctl

  /** IPC_RMID: ENOENT iff there is no such segment.  Otherwise the segment is marked;
      with nobody attached it leaves the registry with its key at once, and else it
      stays registered. */
  ghost predicate Removed(s: State, id: int, s': State, r: Result) {
    if id !in s.segments then r == Err(ENOENT) && s' == s
    else
      var (obj, seg) := (s.segments[id], Obj(s, id));
      var gone := seg.nattch == 0;
      && r == Ok(0)
      && s' == State(s.heap[obj := seg.(marked := true)],
                     if gone then s.segments - {id} else s.segments,
                     if gone then s.keyToId - {seg.key} else s.keyToId, s.nextId, s.records)
  }

  lemma RmidIsExact(s: State, id: int)
    requires Inv(s)
    ensures Removed(s, id, Apply(s, Rmid(id)).0, Apply(s, Rmid(id)).1)
  {
    NoPrivateKey(s);
  }

  /** IPC_SET changes owner, group and mode and nothing else; IPC_STAT and an unknown
      command change nothing. */
  lemma OtherCtlsAreExact(s: State, id: int, buf: Option<Perm>, bufOk: bool)
    ensures
      var (s', r) := Apply(s, SetPerm(id, buf));
      && (r == Err(ENOENT) <==> id !in s.segments) && (r == Err(EFAULT) <==> id in s.segments && buf.None?)
      && (r.Err? ==> s' == s)
      && (r.Ok? ==>
        && id in s.segments && buf.Some?
        && var seg := Obj(s, id).(uid := buf.value.uid, gid := buf.value.gid, mode := buf.value.mode);
        s' == s.(heap := s.heap[s.segments[id] := seg]))
    ensures Apply(s, Stat(id, bufOk)).0 == s && Apply(s, BadCtl(id)).0 == s
    ensures Apply(s, Stat(id, bufOk)).1.Ok? <==> id in s.segments && bufOk
    ensures Apply(s, BadCtl(id)).1 == Err(if id in s.segments then EINVAL else ENOENT)
  {
  }

  /** An exit takes away the records of that process, and nothing else. */
  lemma ExitIsExact(s: State, pid: nat)
    ensures
      var s' := Apply(s, Exit(pid)).0;
      && s' == s.(records := s'.records)
      && (forall p :: p in s'.records <==> p in s.records && p.pid != pid)
      && (forall p :: p in s'.records ==> s'.records[p] == s.records[p])
  {
  }

  // ------------------------------------------------------ what validation refuses

  /** Every segment is as long as its pages, and not too long. */
  ghost predicate SizedAt(s: State, obj: nat) {
    obj in s.heap ==> s.heap[obj].size == AlignUp4k(s.heap[obj].segsz) && s.heap[obj].segsz <= MAX_SHM_SIZE
  }

  lemma ShmgetSizes(s: State, e: Event, obj: nat)
    requires Enabled(s, e) && e.Shmget? && SizedAt(s, obj)
    ensures SizedAt(Apply(s, e).0, obj)
  {
  }

  lemma ShmatSizes(s: State, e: Event, obj: nat)
    requires Enabled(s, e) && e.Shmat? && Registry(s) && SizedAt(s, obj)
    ensures SizedAt(Apply(s, e).0, obj)
  {
    assert e.shmid in s.segments ==> OwnId(s, e.shmid);
  }

  lemma SizesKept(s: State, e: Event, obj: nat)
    requires Enabled(s, e) && Recorded(s) && Registry(s) && SizedAt(s, obj)
    ensures SizedAt(Apply(s, e).0, obj)
  {
    match e {
      case Shmget(_, _, _, _) => ShmgetSizes(s, e, obj);
      case Shmat(_, _, _, _, _, _) => ShmatSizes(s, e, obj);
      case Shmdt(pid, addr, _) =>
        if Place(pid, addr) in s.records {
          assert OwnId(s, s.records[Place(pid, addr)].id);
        }
      case Rmid(id) => if id in s.segments { assert OwnId(s, id); }
      case Stat(_, _) =>
      case SetPerm(id, _) => if id in s.segments { assert OwnId(s, id); }
      case BadCtl(_) =>
      case Exit(_) =>
    }
  }

  lemma {:induction false} SizedInRun(ss: seq<State>, es: seq<Event>, i: nat, obj: nat)
    requires IsRun(ss, es) && i < |ss|
    ensures SizedAt(ss[i], obj)
  {
    if i > 0 {
      SizedInRun(ss, es, i - 1, obj);
      RunKeepsInv(ss, es, i - 1);
      SizesKept(ss[i - 1], es[i - 1], obj);
    }
  }

  lemma PagesFit(n: nat)
    requires n <= MAX_SHM_SIZE
    ensures n <= AlignUp4k(n) <= MAX_SHM_SIZE && (n > 0 ==> AlignUp4k(n) > 0)
  {
  }

  /** In every run a registered segment passes validation iff it has a size, its pages
      are not at physical address zero, and it has at most 65536 attachments.  A
      private segment of size zero can be made, and never attached. */
  lemma ValidationIsExact(ss: seq<State>, es: seq<Event>, i: nat, id: int)
    requires IsRun(ss, es) && i < |ss| && id in ss[i].segments
    ensures
      var seg := Obj(ss[i], id);
      Sane(seg) <==> seg.segsz > 0 && seg.paddr != 0 && seg.nattch <= 65536
  {
    RunKeepsInv(ss, es, i);
    assert OwnId(ss[i], id);
    SizedInRun(ss, es, i, ss[i].segments[id]);
    PagesFit(Obj(ss[i], id).segsz);
  }

  // ------------------------------------------------------------ after a removal

  lemma {:induction false} MarkedForGood(ss: seq<State>, es: seq<Event>, i: nat, j: nat, obj: nat)
    requires IsRun(ss, es) && i <= j < |ss| && obj in ss[i].heap && At(ss[i], obj).marked
    ensures obj in ss[j].heap && At(ss[j], obj).marked
    decreases j - i
  {
    if i < j {
      MarkedForGood(ss, es, i, j - 1, obj);
      MarkedAt(ss, es, j - 1, obj);
    }
  }

  lemma MarkedAt(ss: seq<State>, es: seq<Event>, k: nat, obj: nat)
    requires IsRun(ss, es) && k < |es| && obj in ss[k].heap && At(ss[k], obj).marked
    ensures obj in ss[k + 1].heap && At(ss[k + 1], obj).marked
  {
    var s, e := ss[k], es[k];
    HeapGrows(s, e, obj);
    if e.Shmat? {
      ShmatFrame(s, e, obj);
    } else if e.Shmdt? {
      ShmdtOnlyLowers(s, e, obj);
    } else {
      StaysMarked(s, e, obj);
    }
  }

  lemma HeapGrows(s: State, e: Event, obj: nat)
    requires Enabled(s, e) && obj in s.heap
    ensures obj in Apply(s, e).0.heap
  {
    match e {
      case Shmget(_, _, _, _) =>
      case Shmat(_, _, _, _, _, _) =>
      case Shmdt(_, _, _) =>
      case Rmid(_) =>
      case Stat(_, _) =>
      case SetPerm(_, _) =>
      case BadCtl(_) =>
      case Exit(_) =>
    }
  }

  /** After IPC_RMID of a segment no attach of it succeeds in any later state. */
  lemma RemovedIsNeverAttached(ss: seq<State>, es: seq<Event>, i: nat, j: nat, id: int)
    requires IsRun(ss, es) && i < j < |es| && es[i] == Rmid(id) && id in ss[i].segments && es[j].Shmat?
    requires es[j].shmid in ss[j].segments && ss[j].segments[es[j].shmid] == ss[i].segments[id]
    ensures Apply(ss[j], es[j]).1.Err? && Apply(ss[j], es[j]).0 == ss[j]
  {
    var obj := ss[i].segments[id];
    RunKeepsInv(ss, es, i);
    RmidIsExact(ss[i], id);
    MarkedForGood(ss, es, i + 1, j, obj);
    RunKeepsInv(ss, es, j);
    ShmatIsExact(ss[j], es[j].pid, es[j].shmid, es[j].shmaddr, es[j].rnd, es[j].rdonly, es[j].layout);
  }

  /** And its key is not found any more: `shmget` without creating answers ENOENT. */
  lemma RemovedIsNotFound(s: State, id: int, size: nat, mode: Mode)
    requires Inv(s) && id in s.segments && Obj(s, id).key != IPC_PRIVATE && 0 < size <= MAX_SHM_SIZE
    ensures
      var s' := Apply(s, Rmid(id)).0;
      Apply(s', Shmget(Obj(s, id).key, size, GetFlags(false, false, mode), NoPages)).1 == Err(ENOENT)
  {
    var s' := Apply(s, Rmid(id)).0;
    RmidIsExact(s, id);
    StepKeepsInv(s, Rmid(id));
    ShmgetIsExact(s', Obj(s, id).key, size, GetFlags(false, false, mode), NoPages);
  }
}
