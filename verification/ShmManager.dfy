/**
 The shared-memory calls as the kernel runs them, updating the registry, the
 segments and the attach records in place.  Each method is proved to be the
 corresponding step of `Shm`, so what holds of every run of steps holds of every
 sequence of calls.
 */
module ShmManager {
  import opened Common
  import opened Shm
  import opened ShmRuns
  import ShmCalls

  /** A mask moved up by some bits. */
  function Shifted(mask: set<nat>, n: nat): (m: set<nat>)
    ensures forall b :: b in mask ==> b + n in m
    ensures forall c :: c in m ==> c >= n && c - n in mask
  {
    set b | b in mask :: b + n
  }

  /** Masking the shifted bits out of a mode gives them back iff the mode has each. */
  predicate HasAll(mode: Mode, access: set<nat>, n: nat)
    ensures HasAll(mode, access, n) <==> forall b :: b in access ==> b + n in mode
  {
    var need := Shifted(access, n);
    assert mode * need == need <==> need <= mode;
    mode * need == need
  }

  class Manager {
    var heap: map<nat, Segment>
    var segments: map<int, nat>
    var keyToId: map<int, int>
    var nextId: int
    var records: map<Place, Attach>

    ghost function View(): (s: State)
      reads this
    {
      State(heap, segments, keyToId, nextId, records)
    }

    constructor ()
      ensures View() == Init && Inv(View())
    {
      heap, segments, keyToId, nextId, records := map[], map[], map[], 1, map[];
      InitInv();
    }

    /** `alloc_id`: try at most 1000 ids, wrapping past the largest one. */
    method AllocId() returns (r: Option<int>)
      requires 0 < nextId <= I32_MAX
      modifies this`nextId
      ensures (r, nextId) == AllocSpec(segments.Keys, old(nextId))
      ensures 0 < nextId <= I32_MAX
    {
      var _ := AllocIsFirstFree(segments.Keys, nextId);
      if |segments| >= I32_MAX / 2 {
        assert |segments| == |segments.Keys|;
        return None;
      }
      assert |segments| == |segments.Keys|;
      var attempts := 0;
      while attempts < MAX_ATTEMPTS
        invariant 0 <= attempts <= MAX_ATTEMPTS && 0 < nextId <= I32_MAX
        invariant Probe(segments.Keys, old(nextId), MAX_ATTEMPTS)
               == Probe(segments.Keys, nextId, MAX_ATTEMPTS - attempts)
      {
        var id := nextId;
        nextId := if nextId == I32_MAX then -I32_MAX - 1 else nextId + 1;
        if nextId <= 0 {
          nextId := 1;
        }
        if id !in segments {
          return Some(id);
        }
        attempts := attempts + 1;
      }
      return None;
    }

    method NewEntry(key: int, size: nat, mode: Mode, pages: Pages) returns (r: Result)
      requires 0 < nextId <= I32_MAX
      modifies this
      ensures (View(), r) == Register(old(View()), key, size, mode, pages)
    {
      var found := AllocId();
      if found.None? {
        return Err(ENOMEM);
      }
      match pages {
        case NoPages => return Err(ENOMEM);
        case Pages(obj, paddr) =>
          heap := heap[obj := NewSegment(found.value, key, size, mode, paddr)];
          segments := segments[found.value := obj];
          if key != IPC_PRIVATE {
            keyToId := keyToId[key := found.value];
          }
          return Ok(found.value);
      }
    }

    method Shmget(key: int, size: nat, flags: GetFlags, pages: Pages) returns (r: Result)
      requires Inv(View()) && Enabled(View(), Event.Shmget(key, size, flags, pages))
      modifies this
      ensures (View(), r) == Apply(old(View()), Event.Shmget(key, size, flags, pages))
      ensures Inv(View())
    {
      StepKeepsInv(View(), Event.Shmget(key, size, flags, pages));
      if size > MAX_SHM_SIZE || (size == 0 && key != IPC_PRIVATE) {
        return Err(EINVAL);
      }
      if key == IPC_PRIVATE {
        r := NewEntry(key, size, flags.mode, pages);
        return;
      }
      if key in keyToId {
        var id := keyToId[key];
        assert OwnId(View(), id);
        if flags.excl {
          return Err(EEXIST);
        }
        if heap[segments[id]].marked {
          return Err(ENOENT);
        }
        return Ok(heap[segments[id]].id);
      }
      if flags.create {
        r := NewEntry(key, size, flags.mode, pages);
      } else {
        r := Err(ENOENT);
      }
    }

    method Unregister(id: int) returns (r: Result)
      requires id in segments ==> segments[id] in heap
      modifies this`segments, this`keyToId
      ensures (View(), r) == Remove(old(View()), id)
    {
      if id !in segments {
        return Err(ENOENT);
      }
      var key := heap[segments[id]].key;
      segments := segments - {id};
      if key != IPC_PRIVATE {
        keyToId := keyToId - {key};
      }
      return Ok(0);
    }

    /** `ShmSegment::validate`. */
    method Consistent(seg: Segment) returns (ok: bool)
      ensures ok <==> Sane(seg)
    {
      if seg.nattch > MAX_ATTACH {
        return false;
      }
      if seg.size < seg.segsz || seg.size < AlignUp4k(seg.segsz) {
        return false;
      }
      if seg.segsz == 0 || seg.segsz > MAX_SHM_SIZE {
        return false;
      }
      if seg.size == 0 || seg.size > MAX_SHM_SIZE {
        return false;
      }
      return seg.paddr != 0;
    }

    /** `check_permissions`: the access bits, shifted to the class of the caller, are
        masked out of the mode and compared.  What it grants: every single bit asked
        for is in the mode for that class. */
    method CheckPermissions(seg: Segment, uid: nat, gid: nat, access: set<nat>) returns (ok: bool)
      ensures ok <==> forall b :: b in access ==>
        b + (if uid == seg.uid then 6 else if gid == seg.gid then 3 else 0) in seg.mode
    {
      if uid == seg.uid {
        return HasAll(seg.mode, access, 6);
      }
      if gid == seg.gid {
        return HasAll(seg.mode, access, 3);
      }
      return HasAll(seg.mode, access, 0);
    }

    /** `validate_segment`. */
    method Validate(seg: Segment, rdonly: bool) returns (r: Result)
      ensures r == ValidateSegment(seg, rdonly)
    {
      if seg.marked {
        return Err(EIDRM);
      }
      var sane := Consistent(seg);
      if !sane {
        return Err(EINVAL);
      }
      var access := if rdonly then {2} else {1, 2};
      assert 2 in access && (rdonly <==> 1 !in access);
      var allowed := CheckPermissions(seg, 0, 0, access);
      if !allowed {
        return Err(EACCES);
      }
      return Ok(0);
    }

    /** Where `shmat` maps the segment. */
    method Choose(shmaddr: nat, rnd: bool, layout: Layout) returns (c: Choice)
      ensures c == ChooseAddr(shmaddr, rnd, layout)
    {
      if rnd {
        if shmaddr == 0 {
          return Nowhere(EINVAL);
        }
        return There(shmaddr - shmaddr % PAGE_SIZE);
      }
      if layout.occupied {
        return Nowhere(EINVAL);
      }
      if layout.free.None? {
        return Nowhere(ENOMEM);
      }
      return There(layout.free.value);
    }

    /** The body of `shmat`. */
    method DoAttach(pid: nat, shmid: int, shmaddr: nat, rnd: bool, rdonly: bool, layout: Layout) returns (r: Result)
      requires shmid in segments ==> segments[shmid] in heap
      modifies this
      ensures (View(), r) == AttachSpec(old(View()), pid, shmid, shmaddr, rnd, rdonly, layout)
    {
      if shmid < 0 || (!rnd && shmaddr % PAGE_SIZE != 0) {
        return Err(EINVAL);
      }
      if shmid !in segments {
        return Err(ENOENT);
      }
      var obj := segments[shmid];
      var seg := heap[obj];
      var checked := Validate(seg, rdonly);
      if checked.Err? {
        return checked;
      }
      heap := heap[obj := seg.(nattch := seg.nattch + 1)];
      var choice := Choose(shmaddr, rnd, layout);
      match choice {
        case Nowhere(e) =>
          return Err(e);
        case There(a) =>
          if !layout.mapOk {
            heap := heap[obj := heap[obj].(nattch := heap[obj].nattch - 1)];
            return Err(EOTHER);
          }
          records := records[Place(pid, a) := Attach(shmid, obj)];
          return Ok(a);
      }
    }

    method Shmat(pid: nat, shmid: int, shmaddr: nat, rnd: bool, rdonly: bool, layout: Layout) returns (r: Result)
      requires Inv(View())
      modifies this
      ensures (View(), r) == Apply(old(View()), Event.Shmat(pid, shmid, shmaddr, rnd, rdonly, layout))
      ensures Inv(View())
    {
      StepKeepsInv(View(), Event.Shmat(pid, shmid, shmaddr, rnd, rdonly, layout));
      assert shmid in segments ==> OwnId(View(), shmid);
      r := DoAttach(pid, shmid, shmaddr, rnd, rdonly, layout);
    }

    /** The body of `shmdt`. */
    method DoDetach(place: Place, unmapOk: bool) returns (r: Result)
      requires place in records ==>
        var a := records[place];
        a.obj in heap && (a.id in segments ==> segments[a.id] in heap)
      modifies this
      ensures (View(), r) == DetachSpec(old(View()), place.pid, place.addr, unmapOk)
    {
      if place !in records {
        return Err(EINVAL);
      }
      var a := records[place];
      records := records - {place};
      if !unmapOk {
        return Err(EOTHER);
      }
      var seg := heap[a.obj];
      if seg.nattch > 0 {
        seg := seg.(nattch := seg.nattch - 1);
      }
      heap := heap[a.obj := seg];
      if heap[a.obj].marked && heap[a.obj].nattch == 0 {
        r := Unregister(a.id);
      } else {
        r := Ok(0);
      }
    }

    method Shmdt(pid: nat, shmaddr: nat, unmapOk: bool) returns (r: Result)
      requires Inv(View())
      modifies this
      ensures (View(), r) == Apply(old(View()), Event.Shmdt(pid, shmaddr, unmapOk))
      ensures Inv(View())
    {
      StepKeepsInv(View(), Event.Shmdt(pid, shmaddr, unmapOk));
      var place := Place(pid, shmaddr);
      assert place in records ==> OwnId(View(), records[place].id);
      r := DoDetach(place, unmapOk);
    }

    method Rmid(shmid: int) returns (r: Result)
      requires Inv(View())
      modifies this
      ensures (View(), r) == Apply(old(View()), Event.Rmid(shmid))
      ensures ShmCalls.Removed(old(View()), shmid, View(), r)
      ensures Inv(View())
    {
      ShmCalls.RmidIsExact(View(), shmid);
      StepKeepsInv(View(), Event.Rmid(shmid));
      if shmid !in segments {
        return Err(ENOENT);
      }
      assert OwnId(View(), shmid);
      var obj := segments[shmid];
      heap := heap[obj := heap[obj].(marked := true)];
      if heap[obj].nattch == 0 {
        r := Unregister(shmid);
      } else {
        r := Ok(0);
      }
    }
  }
}
