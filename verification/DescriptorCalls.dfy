/**
 The descriptor system calls (`close`, `dup`, `dup2`, `pipe2`) and the two whole
 table operations (`copy_inner` for fork, `clear` for exit), written as the
 kernel writes them: a sequence of table accesses, clones and drops.  Each is
 given its meaning on `held`, the list of all places that refer to a file, and
 each keeps the reference-count invariant because it is made of events of
 `PipeSystem`.
 */
module DescriptorCalls {
  import opened PipeSystem
  import opened PipeRuns

  datatype CallResult = Ok(value: int) | Err(errno: Errno) | Panic

  ghost predicate TableFull(held: map<Holder, Ref>, t: nat) {
    forall fd: nat :: fd < AX_FILE_LIMIT ==> Slot(t, fd) in held
  }

  /** Exactly one slot of the table is free, or none. */
  ghost predicate NoTwoFree(held: map<Holder, Ref>, t: nat) {
    forall a: nat, b: nat ::
      a < AX_FILE_LIMIT && b < AX_FILE_LIMIT && a != b ==> Slot(t, a) in held || Slot(t, b) in held
  }

  function Descriptors(held: map<Holder, Ref>, t: nat): (fds: set<nat>)
    ensures forall fd :: fd in fds <==> Slot(t, fd) in held
  {
    var fds := set x | x in held && x.Slot? && x.table == t :: x.fd;
    assert forall fd :: Slot(t, fd) in held ==> Slot(t, fd).fd in fds;
    fds
  }

  /** The states that some run of the system gets to. */
  ghost predicate Reachable(s: State) {
    exists ss, es :: IsRun(ss, es) && ss[|es|] == s
  }

  lemma InitReachable()
    ensures Reachable(Init)
  {
    assert IsRun([Init], []);
  }

  lemma ReachableInv(s: State)
    requires Reachable(s)
    ensures Inv(s)
  {
    var ss, es :| IsRun(ss, es) && ss[|es|] == s;
    RunKeepsInv(ss, es, |es|);
  }

  lemma ReachableStep(s: State, e: Event)
    requires Reachable(s) && Enabled(s, e)
    ensures Reachable(Apply(s, e))
  {
    var ss, es :| IsRun(ss, es) && ss[|es|] == s;
    ExtendRun(ss, es, e, Apply(s, e));
    assert (ss + [Apply(s, e)])[|es + [e]|] == Apply(s, e);
  }

  lemma UnusedIsIdle(s: State, h: nat)
    requires Reachable(s) && Handle(h) !in s.held
    ensures !Busy(s, h)
  {
    ReachableInv(s);
    forall o | o in s.ops && s.ops[o].h == h ensures !s.ops[o].Running() {
      assert OpOk(s, s.ops[o]);
    }
  }

  lemma SlotInRange(s: State, t: nat, fd: nat)
    requires Reachable(s) && Slot(t, fd) in s.held
    ensures fd < AX_FILE_LIMIT
  {
    ReachableInv(s);
  }

  /** There is a new pipe with nothing in it and nothing moved through it; the rings
      and streams of the others, and all calls, are as before. */
  ghost predicate OnePipeMore(s: State, s': State, p: nat) {
    && s'.rings == s.rings[p := []] && s'.accepted == s.accepted[p := []]
    && s'.delivered == s.delivered[p := []] && s'.ops == s.ops
  }

  class Kernel {
    var st: State

    constructor ()
      ensures st == Init && Reachable(st)
    {
      InitReachable();
      st := Init;
    }

    // ------------------------------------------------------- atomic table steps

    /** `get_file_like`: clones the reference into the local variable `h`. */
    method GetFileLike(t: nat, fd: int, h: nat) returns (r: CallResult)
      requires Reachable(st) && Handle(h) !in st.held
      modifies this
      ensures Reachable(st) && SameData(old(st), st) && !Busy(st, h)
      ensures fd >= 0 && Slot(t, fd) in old(st.held) ==>
        r == Ok(fd) && st.held == old(st.held)[Handle(h) := old(st.held)[Slot(t, fd)]]
      ensures !(fd >= 0 && Slot(t, fd) in old(st.held)) ==> r == Err(EBADF) && st == old(st)
    {
      UnusedIsIdle(st, h);
      if fd < 0 || Slot(t, fd) !in st.held {
        return Err(EBADF);
      }
      ReachableStep(st, GetFile(t, fd, h));
      st := Apply(st, GetFile(t, fd, h));
      return Ok(fd);
    }

    method AddAt(h: nat, t: nat, fd: nat)
      requires Reachable(st) && Handle(h) in st.held && !Busy(st, h)
      requires Slot(t, fd) !in st.held && fd < AX_FILE_LIMIT
      modifies this
      ensures Reachable(st) && SameData(old(st), st)
      ensures st.held == (old(st.held) - {Handle(h)})[Slot(t, fd) := old(st.held)[Handle(h)]]
    {
      ReachableStep(st, Install(h, t, fd));
      st := Apply(st, Install(h, t, fd));
    }

    method RemoveAt(t: nat, fd: nat)
      requires Reachable(st) && Slot(t, fd) in st.held
      modifies this
      ensures Reachable(st) && SameData(old(st), st)
      ensures st.held == old(st.held) - {Slot(t, fd)}
    {
      ReachableStep(st, Remove(t, fd));
      st := Apply(st, Remove(t, fd));
    }

    method Release(h: nat)
      requires Reachable(st) && Handle(h) in st.held && !Busy(st, h)
      modifies this
      ensures Reachable(st) && SameData(old(st), st)
      ensures st.held == old(st.held) - {Handle(h)}
    {
      ReachableStep(st, DropHandle(h));
      st := Apply(st, DropHandle(h));
    }

    method CopyOne(t: nat, fd: nat, t': nat)
      requires Reachable(st) && Slot(t, fd) in st.held && Slot(t', fd) !in st.held
      modifies this
      ensures Reachable(st) && SameData(old(st), st)
      ensures st.held == old(st.held)[Slot(t', fd) := old(st.held)[Slot(t, fd)]]
    {
      ReachableStep(st, CopySlot(t, fd, t'));
      st := Apply(st, CopySlot(t, fd, t'));
    }

    /** Any other file that is opened, in a local variable. */
    method MakeFile(id: nat, h: nat)
      requires Reachable(st) && Handle(h) !in st.held
      modifies this
      ensures Reachable(st) && SameData(old(st), st) && !Busy(st, h)
      ensures st.held == old(st.held)[Handle(h) := Other(id)]
    {
      UnusedIsIdle(st, h);
      ReachableStep(st, NewOther(id, h));
      st := Apply(st, NewOther(id, h));
    }

    /** `Pipe::new`: both ends in local variables. */
    method MakePipe(p: nat, hr: nat, hw: nat)
      requires Reachable(st) && Enabled(st, NewPipe(p, hr, hw))
      modifies this
      ensures Reachable(st) && st.ops == old(st.ops) && !Busy(st, hr) && !Busy(st, hw)
      ensures OnePipeMore(old(st), st, p)
      ensures st.held == old(st.held)[Handle(hr) := End(p, ReadEnd)][Handle(hw) := End(p, WriteEnd)]
    {
      UnusedIsIdle(st, hr);
      UnusedIsIdle(st, hw);
      ReachableStep(st, NewPipe(p, hr, hw));
      st := Apply(st, NewPipe(p, hr, hw));
    }

    /** `add_file_like`: any free slot, or EMFILE and the file is dropped. */
    method AddFile(h: nat, t: nat) returns (r: CallResult)
      requires Reachable(st) && Handle(h) in st.held && !Busy(st, h)
      modifies this
      ensures Reachable(st) && SameData(old(st), st)
      ensures r == Err(EMFILE) <==> TableFull(old(st.held), t)
      ensures r == Err(EMFILE) ==> st.held == old(st.held) - {Handle(h)}
      ensures r != Err(EMFILE) ==>
        && r.Ok? && 0 <= r.value < AX_FILE_LIMIT && Slot(t, r.value) !in old(st.held)
        && st.held == (old(st.held) - {Handle(h)})[Slot(t, r.value) := old(st.held)[Handle(h)]]
    {
      if fd: nat :| fd < AX_FILE_LIMIT && Slot(t, fd) !in st.held {
        AddAt(h, t, fd);
        r := Ok(fd);
      } else {
        Release(h);
        r := Err(EMFILE);
      }
    }

    // ------------------------------------------------------------- system calls

    method Close(t: nat, fd: int) returns (r: CallResult)
      requires Reachable(st)
      modifies this
      ensures Reachable(st) && SameData(old(st), st)
      ensures fd >= 0 && Slot(t, fd) in old(st.held) ==> r == Ok(0) && st.held == old(st.held) - {Slot(t, fd)}
      ensures !(fd >= 0 && Slot(t, fd) in old(st.held)) ==> r == Err(EBADF) && st == old(st)
    {
      if fd >= 0 && Slot(t, fd) in st.held {
        RemoveAt(t, fd);
        return Ok(0);
      }
      return Err(EBADF);
    }

    /** `dup_fd`, with `h` the local variable that keeps the clone. */
    method Dup(t: nat, oldFd: int, h: nat) returns (r: CallResult)
      requires Reachable(st) && Handle(h) !in st.held
      modifies this
      ensures Reachable(st) && SameData(old(st), st)
      ensures r == Err(EBADF) <==> !(oldFd >= 0 && Slot(t, oldFd) in old(st.held))
      ensures r == Err(EMFILE) <==> oldFd >= 0 && Slot(t, oldFd) in old(st.held) && TableFull(old(st.held), t)
      ensures r.Err? ==> (r.errno == EBADF || r.errno == EMFILE) && st.held == old(st.held)
      ensures r.Ok? ==>
        && oldFd >= 0 && Slot(t, oldFd) in old(st.held)
        && 0 <= r.value < AX_FILE_LIMIT && Slot(t, r.value) !in old(st.held)
        && st.held == old(st.held)[Slot(t, r.value) := old(st.held)[Slot(t, oldFd)]]
      ensures !r.Panic?
    {
      ghost var base := st.held;
      r := GetFileLike(t, oldFd, h);
      if r.Err? {
        return;
      }
      assert st.held - {Handle(h)} == base;
      assert TableFull(st.held, t) <==> TableFull(base, t);
      r := AddFile(h, t);
    }

    /** `dup2`: the clone is taken before the target slot is emptied, so the end
        stays open even when both slots hold the same file. */
    method Dup2(t: nat, oldFd: int, newFd: int, h: nat) returns (r: CallResult)
      requires Reachable(st) && Handle(h) !in st.held
      modifies this
      ensures Reachable(st) && SameData(old(st), st)
      ensures r == Err(EBADF) <==> !(oldFd >= 0 && Slot(t, oldFd) in old(st.held))
      ensures r.Err? ==> r == Err(EBADF) && st == old(st)
      ensures r.Panic? <==>
        && oldFd >= 0 && Slot(t, oldFd) in old(st.held) && oldFd != newFd
        && !(0 <= newFd < AX_FILE_LIMIT)
      ensures r.Ok? ==>
        && r.value == newFd && oldFd >= 0 && Slot(t, oldFd) in old(st.held) && newFd >= 0
        && st.held == old(st.held)[Slot(t, newFd) := old(st.held)[Slot(t, oldFd)]]
    {
      ghost var base := st.held;
      r := GetFileLike(t, oldFd, h);
      if r.Err? {
        return;
      }
      assert st.held - {Handle(h)} == base;
      if oldFd == newFd {
        Release(h);
        return Ok(newFd);
      }
      if newFd >= 0 && Slot(t, newFd) in st.held {
        SlotInRange(st, t, newFd);
        RemoveAt(t, newFd);
      }
      if !(0 <= newFd < AX_FILE_LIMIT) {
        return Panic;
      }
      AddAt(h, t, newFd);
      assert st.held == base[Slot(t, newFd) := base[Slot(t, oldFd)]];
      return Ok(newFd);
    }

    /** The second insertion of `pipe2`, with its rollback. */
    method AddWriteEnd(t: nat, p: nat, hw: nat, readFd: nat, ghost base: map<Holder, Ref>) returns (r: CallResult)
      requires Reachable(st) && Handle(hw) !in base && Slot(t, readFd) !in base && !Busy(st, hw)
      requires st.held == base[Slot(t, readFd) := End(p, ReadEnd)][Handle(hw) := End(p, WriteEnd)]
      modifies this
      ensures Reachable(st) && SameData(old(st), st)
      ensures r == Err(EMFILE) <==> TableFull(old(st.held), t)
      ensures r == Err(EMFILE) ==> st.held == base
      ensures r != Err(EMFILE) ==>
        && r.Ok? && 0 <= r.value < AX_FILE_LIMIT && Slot(t, r.value) !in old(st.held)
        && st.held == base[Slot(t, readFd) := End(p, ReadEnd)][Slot(t, r.value) := End(p, WriteEnd)]
    {
      ghost var one := base[Slot(t, readFd) := End(p, ReadEnd)];
      assert st.held - {Handle(hw)} == one;
      r := AddFile(hw, t);
      if r.Err? {
        var undone := Close(t, readFd);
        assert one - {Slot(t, readFd)} == base;
      }
    }

    /** The first insertion: if it fails both ends are dropped. */
    method AddReadEnd(t: nat, p: nat, hr: nat, hw: nat, ghost base: map<Holder, Ref>) returns (r: CallResult)
      requires Reachable(st) && hr != hw && Handle(hr) !in base && Handle(hw) !in base
      requires !Busy(st, hr) && !Busy(st, hw)
      requires st.held == base[Handle(hr) := End(p, ReadEnd)][Handle(hw) := End(p, WriteEnd)]
      modifies this
      ensures Reachable(st) && SameData(old(st), st)
      ensures r == Err(EMFILE) <==> TableFull(base, t)
      ensures r == Err(EMFILE) ==> st.held == base
      ensures r != Err(EMFILE) ==>
        && r.Ok? && 0 <= r.value < AX_FILE_LIMIT && Slot(t, r.value) !in base
        && st.held == base[Slot(t, r.value) := End(p, ReadEnd)][Handle(hw) := End(p, WriteEnd)]
    {
      HandlesAside(base, st.held, t, p, hr, hw);
      r := AddFile(hr, t);
      if r.Err? {
        Release(hw);
      } else {
        ReadEndIn(base, t, r.value, p, hw);
      }
    }

    method AddEnds(t: nat, p: nat, hr: nat, hw: nat) returns (r: CallResult, readFd: nat, writeFd: nat)
      requires Reachable(st) && Enabled(st, NewPipe(p, hr, hw))
      modifies this
      ensures Reachable(st) && OnePipeMore(old(st), st, p)
      ensures r == Err(EMFILE) <==> NoTwoFree(old(st.held), t)
      ensures r == Err(EMFILE) ==> st.held == old(st.held)
      ensures r != Err(EMFILE) ==>
        && r == Ok(0) && readFd != writeFd && readFd < AX_FILE_LIMIT && writeFd < AX_FILE_LIMIT
        && Slot(t, readFd) !in old(st.held) && Slot(t, writeFd) !in old(st.held)
        && st.held == old(st.held)[Slot(t, readFd) := End(p, ReadEnd)][Slot(t, writeFd) := End(p, WriteEnd)]
    {
      readFd, writeFd := 0, 0;
      ghost var base := st.held;
      MakePipe(p, hr, hw);
      r := AddReadEnd(t, p, hr, hw, base);
      if r.Err? {
        return;
      }
      readFd := r.value;
      FullMeansNoTwo(base, st.held, t, readFd, p, hw);
      r := AddWriteEnd(t, p, hw, readFd, base);
      if r.Ok? {
        writeFd := r.value;
        r := Ok(0);
      }
    }

    /** `pipe2`: two insertions; if the second fails the first is undone.
        Failure leaves no trace of the pipe in any table and no owner of it. */
    method Pipe2(t: nat, p: nat, hr: nat, hw: nat) returns (r: CallResult, readFd: nat, writeFd: nat)
      requires Reachable(st) && Enabled(st, NewPipe(p, hr, hw))
      modifies this
      ensures Reachable(st) && OnePipeMore(old(st), st, p)
      ensures r == Err(EMFILE) <==> NoTwoFree(old(st.held), t)
      ensures r == Err(EMFILE) ==>
        && st.held == old(st.held)
        && Count(st.ends, End(p, ReadEnd)) == 0 && Count(st.ends, End(p, WriteEnd)) == 0
        && Count(st.buffers, p) == 0
      ensures r != Err(EMFILE) ==>
        && r == Ok(0) && readFd != writeFd && readFd < AX_FILE_LIMIT && writeFd < AX_FILE_LIMIT
        && Slot(t, readFd) !in old(st.held) && Slot(t, writeFd) !in old(st.held)
        && st.held == old(st.held)[Slot(t, readFd) := End(p, ReadEnd)][Slot(t, writeFd) := End(p, WriteEnd)]
    {
      ghost var base := st.held;
      NewPipeIsNew(st, p);
      r, readFd, writeFd := AddEnds(t, p, hr, hw);
      if r == Err(EMFILE) {
        Orphaned(st, base, p);
      }
    }

    /** `copy_inner`: fork gives the child a table with the same files. */
    method CopyInner(t: nat, t': nat)
      requires Reachable(st) && t != t' && (forall fd: nat :: Slot(t', fd) !in st.held)
      modifies this
      ensures Reachable(st) && SameData(old(st), st)
      ensures forall fd: nat :: Slot(t', fd) in st.held <==> Slot(t, fd) in old(st.held)
      ensures forall fd: nat :: Slot(t', fd) in st.held ==> st.held[Slot(t', fd)] == old(st.held)[Slot(t, fd)]
      ensures forall x: Holder :: !(x.Slot? && x.table == t') ==>
        (x in st.held <==> x in old(st.held)) && (x in st.held ==> st.held[x] == old(st.held)[x])
    {
      var ids := Descriptors(st.held, t);
      while ids != {}
        invariant Reachable(st) && SameData(old(st), st)
        invariant forall fd :: fd in ids ==> Slot(t, fd) in old(st.held) && Slot(t', fd) !in st.held
        invariant forall fd: nat :: Slot(t', fd) in st.held <==> Slot(t, fd) in old(st.held) && fd !in ids
        invariant forall fd: nat :: Slot(t', fd) in st.held ==> st.held[Slot(t', fd)] == old(st.held)[Slot(t, fd)]
        invariant forall x: Holder :: !(x.Slot? && x.table == t') ==>
          (x in st.held <==> x in old(st.held)) && (x in st.held ==> st.held[x] == old(st.held)[x])
      {
        var id :| id in ids;
        CopyOne(t, id, t');
        ids := ids - {id};
      }
    }

    /** `clear`: the last thread to exit closes every descriptor of its table. */
    method Clear(t: nat)
      requires Reachable(st)
      modifies this
      ensures Reachable(st) && SameData(old(st), st)
      ensures st.held == map x | x in old(st.held) && !(x.Slot? && x.table == t) :: old(st.held)[x]
    {
      var ids := Descriptors(st.held, t);
      while ids != {}
        invariant Reachable(st) && SameData(old(st), st)
        invariant forall fd :: fd in ids ==> Slot(t, fd) in st.held
        invariant forall x :: x in st.held <==>
          x in old(st.held) && (x.Slot? && x.table == t ==> x.fd in ids)
        invariant forall x :: x in st.held ==> st.held[x] == old(st.held)[x]
      {
        var id :| id in ids;
        RemoveAt(t, id);
        ids := ids - {id};
      }
    }
  }

  /** The panic of `dup2` is reached: one open file in slot 3, duplicated to 1024. */
  method Dup2CanPanic() returns (r: CallResult)
    ensures r == Panic
  {
    var k := new Kernel();
    k.MakeFile(7, 0);
    k.AddAt(0, 0, 3);
    r := k.Dup2(0, 3, AX_FILE_LIMIT, 0);
  }

  /** Two ends in local variables change nothing about the tables. */
  lemma HandlesAside(base: map<Holder, Ref>, held: map<Holder, Ref>, t: nat, p: nat, hr: nat, hw: nat)
    requires hr != hw && Handle(hr) !in base && Handle(hw) !in base
    requires held == base[Handle(hr) := End(p, ReadEnd)][Handle(hw) := End(p, WriteEnd)]
    ensures TableFull(held, t) <==> TableFull(base, t)
    ensures held - {Handle(hr)} == base[Handle(hw) := End(p, WriteEnd)]
    ensures base[Handle(hw) := End(p, WriteEnd)] - {Handle(hw)} == base
    ensures forall fd: nat :: Slot(t, fd) in held <==> Slot(t, fd) in base
  {
    forall fd: nat ensures Slot(t, fd) in held <==> Slot(t, fd) in base {
    }
  }

  lemma ReadEndIn(base: map<Holder, Ref>, t: nat, fd: nat, p: nat, hw: nat)
    ensures base[Handle(hw) := End(p, WriteEnd)][Slot(t, fd) := End(p, ReadEnd)]
         == base[Slot(t, fd) := End(p, ReadEnd)][Handle(hw) := End(p, WriteEnd)]
  {
  }

  /** With the read end installed, the table is full iff it had no second free slot. */
  lemma FullMeansNoTwo(base: map<Holder, Ref>, held: map<Holder, Ref>, t: nat, fd: nat, p: nat, hw: nat)
    requires held == base[Slot(t, fd) := End(p, ReadEnd)][Handle(hw) := End(p, WriteEnd)]
    requires Slot(t, fd) !in base && fd < AX_FILE_LIMIT
    ensures TableFull(held, t) <==> NoTwoFree(base, t)
  {
    if TableFull(held, t) {
      forall a: nat | a < AX_FILE_LIMIT && a != fd ensures Slot(t, a) in base {
        assert Slot(t, a) in held;
      }
    }
    if NoTwoFree(base, t) {
      forall a: nat | a < AX_FILE_LIMIT ensures Slot(t, a) in held {
        assert a != fd ==> Slot(t, a) in base || Slot(t, fd) in base;
      }
    }
  }

  lemma NewPipeIsNew(s: State, p: nat)
    requires Reachable(s) && p !in s.rings
    ensures forall x :: x in s.held && s.held[x].End? ==> s.held[x].pipe != p
  {
    ReachableInv(s);
  }

  /** If no place holds either end of `p`, the counts have all gone to zero. */
  lemma Orphaned(s: State, base: map<Holder, Ref>, p: nat)
    requires Reachable(s) && s.held == base
    requires forall x :: x in base && base[x].End? ==> base[x].pipe != p
    ensures Count(s.ends, End(p, ReadEnd)) == 0 && Count(s.ends, End(p, WriteEnd)) == 0 && Count(s.buffers, p) == 0
  {
    ReachableInv(s);
    assert HoldersOf(s.held, End(p, ReadEnd)) == {};
    assert HoldersOf(s.held, End(p, WriteEnd)) == {};
    assert Count(s.buffers, p) == Alive(s, End(p, ReadEnd)) + Alive(s, End(p, WriteEnd));
  }

}
