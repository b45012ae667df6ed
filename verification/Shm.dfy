/**
 System V shared memory: the segment registry, the attach records of every
 process, and the four system calls as steps of one transition system.

 A segment is an object on a heap, shared by the registry and by attach records
 (`Arc<ShmSegment>`); `heap` gives its current contents.  Places where a process
 has attached a segment are pairs of process and address.  The address space, the
 page allocator and user pointers answer through the parameters of an event.
 */
module Shm {
  import opened Common

  const I32_MAX: int := 2147483647
  const MAX_ATTEMPTS: nat := 1000
  const MAX_SHM_SIZE: nat := 1073741824
  const MAX_ATTACH: nat := 65536
  const PAGE_SIZE: nat := 4096
  const IPC_PRIVATE: int := 0

  /** Permission bits 0 to 8 of a mode. */
  type Mode = set<nat>

  datatype Segment = Segment(id: int, key: int, size: nat, segsz: nat, paddr: nat,
                             uid: nat, gid: nat, mode: Mode, nattch: nat, marked: bool)

  datatype Place = Place(pid: nat, addr: nat)

  datatype Attach = Attach(id: int, obj: nat)

  datatype State = State(
    heap: map<nat, Segment>,
    segments: map<int, nat>,
    keyToId: map<int, int>,
    nextId: int,
    records: map<Place, Attach>)

  datatype Errno = EINVAL | ENOENT | EEXIST | ENOMEM | EIDRM | EACCES | EFAULT | EOTHER

  datatype Result = Ok(value: int) | Err(errno: Errno)

  datatype GetFlags = GetFlags(create: bool, excl: bool, mode: Mode)

  /** What the page allocator gives a new segment. */
  datatype Pages = NoPages | Pages(obj: nat, paddr: nat)

  /** What the address space answers to an attach. */
  datatype Layout = Layout(occupied: bool, free: Option<nat>, mapOk: bool)

  datatype Perm = Perm(uid: nat, gid: nat, mode: Mode)

  datatype Event =
    | Shmget(key: int, size: nat, flags: GetFlags, pages: Pages)
    | Shmat(pid: nat, shmid: int, shmaddr: nat, rnd: bool, rdonly: bool, layout: Layout)
    | Shmdt(pid: nat, shmaddr: nat, unmapOk: bool)
    | Rmid(shmid: int)
    | Stat(shmid: int, bufOk: bool)
    | SetPerm(shmid: int, buf: Option<Perm>)
    | BadCtl(shmid: int)
    | Exit(pid: nat)

  const Init := State(map[], map[], map[], 1, map[])

  function AlignUp4k(n: nat): nat {
    (n + PAGE_SIZE - 1) / PAGE_SIZE * PAGE_SIZE
  }

  // -------------------------------------------------------------- identifiers

  /** `wrapping_add(1)` on a positive 32-bit id, restarting at 1. */
  function Succ(id: int): int {
    if id >= I32_MAX then 1 else id + 1
  }

  /** The search of `alloc_id`: the id found, and the next one to try. */
  function Probe(used: set<int>, id: int, left: nat): (Option<int>, int)
    decreases left
  {
    if left == 0 then (None, id)
    else if id !in used then (Some(id), Succ(id))
    else Probe(used, Succ(id), left - 1)
  }

  function AllocSpec(used: set<int>, next: int): (Option<int>, int) {
    if |used| >= I32_MAX / 2 then (None, next) else Probe(used, next, MAX_ATTEMPTS)
  }

  /** The id `k` places after `start` in cyclic order over 1..I32_MAX. */
  function Cyclic(start: int, k: nat): int {
    (start - 1 + k) % I32_MAX + 1
  }

  // ---------------------------------------------------------------- the steps

  function NewSegment(id: int, key: int, size: nat, mode: Mode, paddr: nat): Segment {
    Segment(id, key, AlignUp4k(size), size, paddr, 0, 0, mode, 0, false)
  }

  /** Allocating an id and registering a fresh segment under it. */
  function Register(s: State, key: int, size: nat, mode: Mode, pages: Pages): (State, Result) {
    var (found, next) := AllocSpec(s.segments.Keys, s.nextId);
    var s' := s.(nextId := next);
    match (found, pages)
    case (None, _) => (s', Err(ENOMEM))
    case (Some(id), NoPages) => (s', Err(ENOMEM))
    case (Some(id), Pages(obj, paddr)) =>
      (s'.(heap := s.heap[obj := NewSegment(id, key, size, mode, paddr)],
           segments := s.segments[id := obj],
           keyToId := if key == IPC_PRIVATE then s.keyToId else s.keyToId[key := id]),
       Ok(id))
  }

  function GetOrCreate(s: State, key: int, size: nat, flags: GetFlags, pages: Pages): (State, Result) {
    if key == IPC_PRIVATE then Register(s, key, size, flags.mode, pages)
    else if key in s.keyToId then
      var id := s.keyToId[key];
      if flags.excl then (s, Err(EEXIST))
      else if id in s.segments then
        if Obj(s, id).marked then (s, Err(ENOENT)) else (s, Ok(Obj(s, id).id))
      else (s.(keyToId := s.keyToId - {key}), Err(ENOENT))
    else if flags.create then Register(s, key, size, flags.mode, pages)
    else (s, Err(ENOENT))
  }

  const Blank := Segment(0, 0, 0, 0, 0, 0, 0, {}, 0, false)

  function At(s: State, obj: nat): Segment {
    if obj in s.heap then s.heap[obj] else Blank
  }

  /** The segment registered under `id`. */
  function Obj(s: State, id: int): Segment {
    if id in s.segments then At(s, s.segments[id]) else Blank
  }

  function Update(s: State, obj: nat, seg: Segment): State {
    s.(heap := s.heap[obj := seg])
  }

  function IncAttach(s: State, obj: nat): State {
    Update(s, obj, At(s, obj).(nattch := At(s, obj).nattch + 1))
  }

  function DecAttach(s: State, obj: nat): State {
    var n := At(s, obj).nattch;
    Update(s, obj, At(s, obj).(nattch := if n > 0 then n - 1 else 0))
  }

  /** `ShmManager::remove`. */
  function Remove(s: State, id: int): (State, Result) {
    if id in s.segments then
      var key := Obj(s, id).key;
      (s.(segments := s.segments - {id}, keyToId := if key != IPC_PRIVATE then s.keyToId - {key} else s.keyToId),
       Ok(0))
    else (s, Err(ENOENT))
  }

  /** `ShmSegment::validate`. */
  predicate Sane(seg: Segment) {
    && seg.nattch <= MAX_ATTACH
    && seg.segsz <= seg.size && AlignUp4k(seg.segsz) <= seg.size
    && 0 < seg.segsz <= MAX_SHM_SIZE && 0 < seg.size <= MAX_SHM_SIZE
    && seg.paddr != 0
  }

  /** `check_permissions(0, 0, access)`: owner, group or other bits. */
  predicate Permits(seg: Segment, rdonly: bool) {
    var shift := if seg.uid == 0 then 6 else if seg.gid == 0 then 3 else 0;
    2 + shift in seg.mode && (rdonly || 1 + shift in seg.mode)
  }

  function ValidateSegment(seg: Segment, rdonly: bool): Result {
    if seg.marked then Err(EIDRM)
    else if !Sane(seg) then Err(EINVAL)
    else if !Permits(seg, rdonly) then Err(EACCES)
    else Ok(0)
  }

  datatype Choice = Nowhere(errno: Errno) | There(addr: nat)

  /** Where an attach goes: a rounded address, a free area, or nowhere. */
  function ChooseAddr(shmaddr: nat, rnd: bool, layout: Layout): Choice {
    if rnd then
      if shmaddr == 0 then Nowhere(EINVAL) else There(shmaddr / PAGE_SIZE * PAGE_SIZE)
    else if layout.occupied then Nowhere(EINVAL)
    else match layout.free
      case None => Nowhere(ENOMEM)
      case Some(a) => There(a)
  }

  /** The part of `shmat` after the count has gone up. */
  function Settle(s: State, pid: nat, id: int, obj: nat, shmaddr: nat, rnd: bool, layout: Layout): (State, Result) {
    match ChooseAddr(shmaddr, rnd, layout)
    case Nowhere(e) => (s, Err(e))
    case There(a) =>
      if !layout.mapOk then (DecAttach(s, obj), Err(EOTHER))
      else (s.(records := s.records[Place(pid, a) := Attach(id, obj)]), Ok(a))
  }

  function AttachSpec(s: State, pid: nat, shmid: int, shmaddr: nat, rnd: bool, rdonly: bool, layout: Layout)
    : (State, Result)
  {
    if shmid < 0 || (!rnd && shmaddr % PAGE_SIZE != 0) then (s, Err(EINVAL))
    else if shmid !in s.segments then (s, Err(ENOENT))
    else
      var obj := s.segments[shmid];
      match ValidateSegment(At(s, obj), rdonly)
      case Err(e) => (s, Err(e))
      case Ok(_) => Settle(IncAttach(s, obj), pid, shmid, obj, shmaddr, rnd, layout)
  }

  function DetachSpec(s: State, pid: nat, shmaddr: nat, unmapOk: bool): (State, Result) {
    var place := Place(pid, shmaddr);
    if place !in s.records then (s, Err(EINVAL))
    else
      var a := s.records[place];
      var s1 := s.(records := s.records - {place});
      if !unmapOk then (s1, Err(EOTHER))
      else
        var s2 := DecAttach(s1, a.obj);
        if At(s2, a.obj).marked && At(s2, a.obj).nattch == 0 then Remove(s2, a.id) else (s2, Ok(0))
  }

  function RmidSpec(s: State, shmid: int): (State, Result) {
    if shmid !in s.segments then (s, Err(ENOENT))
    else
      var obj := s.segments[shmid];
      var s1 := Update(s, obj, At(s, obj).(marked := true));
      if At(s1, obj).nattch == 0 then Remove(s1, shmid) else (s1, Ok(0))
  }

  function Apply(s: State, e: Event): (State, Result) {
    match e
    case Shmget(key, size, flags, pages) =>
      if size > MAX_SHM_SIZE || (size == 0 && key != IPC_PRIVATE) then (s, Err(EINVAL))
      else GetOrCreate(s, key, size, flags, pages)
    case Shmat(pid, id, addr, rnd, rdonly, layout) => AttachSpec(s, pid, id, addr, rnd, rdonly, layout)
    case Shmdt(pid, addr, unmapOk) => DetachSpec(s, pid, addr, unmapOk)
    case Rmid(id) => RmidSpec(s, id)
    case Stat(id, bufOk) => (s, if id !in s.segments then Err(ENOENT) else if bufOk then Ok(0) else Err(EFAULT))
    case SetPerm(id, buf) =>
      if id !in s.segments then (s, Err(ENOENT))
      else (match buf
        case None => (s, Err(EFAULT))
        case Some(p) =>
          (Update(s, s.segments[id], Obj(s, id).(uid := p.uid, gid := p.gid, mode := p.mode)), Ok(0)))
    case BadCtl(id) => (s, if id !in s.segments then Err(ENOENT) else Err(EINVAL))
    case Exit(pid) =>
      (s.(records := map p | p in s.records && p.pid != pid :: s.records[p]), Ok(0))
  }

  /** The allocator never hands out an object that exists. */
  predicate Enabled(s: State, e: Event) {
    e.Shmget? && e.pages.Pages? ==> e.pages.obj !in s.heap
  }

  // ---------------------------------------------------------------- invariants

  function RecordsOf(s: State, obj: nat): (ps: set<Place>) {
    set p | p in s.records && s.records[p].obj == obj
  }

  /** Each segment is stored under its own positive id. */
  ghost predicate OwnId(s: State, id: int) {
    id in s.segments && 0 < id <= I32_MAX && s.segments[id] in s.heap && Obj(s, id).id == id
  }

  ghost predicate Registry(s: State) {
    && 0 < s.nextId <= I32_MAX
    && forall id :: id in s.segments ==> OwnId(s, id)
  }

  /** `keyToId` and the non-private keys of the registry are mutually inverse. */
  ghost predicate Keys(s: State) {
    && (forall k :: k in s.keyToId ==>
      k != IPC_PRIVATE && s.keyToId[k] in s.segments && Obj(s, s.keyToId[k]).key == k)
    && (forall id :: id in s.segments && Obj(s, id).key != IPC_PRIVATE ==>
      Obj(s, id).key in s.keyToId && s.keyToId[Obj(s, id).key] == id)
  }

  /** A recorded segment is registered, under the id in the record. */
  ghost predicate Recorded(s: State) {
    forall p :: p in s.records ==>
      s.records[p].id in s.segments && s.segments[s.records[p].id] == s.records[p].obj
  }

  ghost predicate Counted(s: State) {
    forall obj :: obj in s.heap ==> s.heap[obj].nattch >= |RecordsOf(s, obj)|
  }

  /** A segment marked for deletion and still registered is attached. */
  ghost predicate Deferred(s: State) {
    forall id :: id in s.segments && Obj(s, id).marked ==> Obj(s, id).nattch > 0
  }

  ghost predicate Inv(s: State) {
    Registry(s) && Keys(s) && Recorded(s) && Counted(s) && Deferred(s)
  }
}
