/**
 The wake and requeue commands of `sys_futex`, made of events of the futex
 table: look a queue up, wake or move tasks through the guard, drop the guard.
 `g` and `g2` are the local variables that hold the guards.
 */
module FutexCalls {
  import opened Common
  import opened FutexTable

  datatype FutexResult = Ok(count: nat) | EAGAIN

  /** The tasks that wait at an address, first come first. */
  function Waiting(s: State, addr: nat): (q: seq<Task>) {
    if addr in s.table then Queue(s, s.table[addr]) else []
  }

  /** `g` is a guard for the address, on the queue the table has there. */
  ghost predicate Holds(s: State, g: nat, addr: nat) {
    Live(s, g) && s.guards[g].key == addr && addr in s.table && s.table[addr] == s.guards[g].queue
  }

  /** Every address but these has the tasks it had. */
  ghost predicate SameElsewhere(s: State, s': State, addr: nat, addr2: nat) {
    forall a: nat :: a != addr && a != addr2 ==> Waiting(s', a) == Waiting(s, a)
  }

  ghost predicate SameEverywhere(s: State, s': State) {
    forall a: nat :: Waiting(s', a) == Waiting(s, a)
  }

  /** Two addresses never share a queue, so changing one queue is seen at one
      address only. */
  lemma OneQueueChanged(s: State, addr: nat, tasks: seq<Task>)
    requires Reachable(s) && addr in s.table
    ensures
      var s' := s.(waiting := s.waiting[s.table[addr] := tasks]);
      Waiting(s', addr) == tasks && SameElsewhere(s, s', addr, addr)
  {
    ReachableInv(s);
  }

  lemma LookupMovesNothing(s: State, addr: nat, g: nat)
    requires Reachable(s) && Enabled(s, Get(addr, g))
    ensures SameEverywhere(s, Apply(s, Get(addr, g))) && Apply(s, Get(addr, g)).strong.Keys == s.strong.Keys
  {
    ReachableInv(s);
  }

  lemma InsertMovesNothing(s: State, addr: nat, g: nat, q: nat)
    requires Reachable(s) && g !in s.guards && q !in s.strong && q !in s.waiting
    ensures SameEverywhere(s, Apply(s, GetOrInsert(addr, g, q)))
  {
    ReachableInv(s);
    var s' := Apply(s, GetOrInsert(addr, g, q));
    forall a: nat ensures Waiting(s', a) == Waiting(s, a) {
      assert a in s.table ==> s.table[a] != q;
    }
  }

  lemma DropMovesNothing(s: State, g: nat)
    requires Reachable(s) && Live(s, g)
    ensures
      var s' := Apply(s, DropBody(g));
      && s'.table == s.table && s'.waiting == s.waiting
      && s'.guards == s.guards[g := s.guards[g].(dropping := true)]
  {
    ReachableInv(s);
    GuardIsNeverLast(s, g);
  }

  lemma MoveSeen(s: State, g: nat, g2: nat, n: nat, addr: nat, addr2: nat)
    requires Reachable(s) && Holds(s, g, addr) && Holds(s, g2, addr2)
    ensures
      var (s', q) := (Apply(s, FutexTable.Requeue(g, g2, n)), Waiting(s, addr));
      var k := Min(n, |q|);
      && SameElsewhere(s, s', addr, addr2)
      && (addr != addr2 ==> Waiting(s', addr) == q[k..] && Waiting(s', addr2) == Waiting(s, addr2) + q[..k])
  {
    ReachableInv(s);
  }

  /** With n tasks waiting at the first address, the first min(n, value) are woken,
      the next ones up to value2 go to the second address in order, the rest stay, and
      the result counts both; no other address is touched. */
  ghost predicate Requeued(s: State, s': State, woken: seq<Task>, woken': seq<Task>,
                           addr: nat, addr2: nat, value: nat, value2: nat, count: nat) {
    var q := Waiting(s, addr);
    var w := Min(|q|, value);
    var m := Min(|q| - w, value2);
    && count == w + m == Min(|q|, value + value2)
    && woken' == woken + q[..w]
    && Waiting(s', addr2) == Waiting(s, addr2) + q[w..w + m]
    && Waiting(s', addr) == q[w + m..]
    && SameElsewhere(s, s', addr, addr2)
  }

  lemma NothingToMove(s: State, woken: seq<Task>, addr: nat, addr2: nat, value: nat, value2: nat)
    requires Waiting(s, addr) == [] && addr != addr2
    ensures Requeued(s, s, woken, woken, addr, addr2, value, value2, 0)
  {
  }

  /** Steps before and after that move no task do not matter. */
  lemma SeenAlike(s0: State, s: State, s': State, s1: State, woken: seq<Task>, woken': seq<Task>,
                  addr: nat, addr2: nat, value: nat, value2: nat, count: nat)
    requires SameEverywhere(s0, s) && SameEverywhere(s', s1)
    requires Requeued(s, s', woken, woken', addr, addr2, value, value2, count)
    ensures Requeued(s0, s1, woken, woken', addr, addr2, value, value2, count)
  {
    forall a: nat | a != addr && a != addr2 ensures Waiting(s1, a) == Waiting(s0, a) {
    }
  }

  class Futexes {
    var st: State
    /** Every task woken so far, in order. */
    var woken: seq<Task>

    constructor ()
      ensures st == Init && Reachable(st) && woken == []
    {
      InitReachable();
      st, woken := Init, [];
    }

    /** `FutexTable::get`. */
    method Lookup(addr: nat, g: nat) returns (found: bool)
      requires Reachable(st) && g !in st.guards
      modifies this`st
      ensures Reachable(st) && st.table == old(st.table) && SameEverywhere(old(st), st)
      ensures st.waiting.Keys == old(st.waiting.Keys) && st.strong.Keys == old(st.strong.Keys)
      ensures found <==> addr in old(st.table)
      ensures found ==> Holds(st, g, addr) && st.guards.Keys == old(st.guards.Keys) + {g}
      ensures !found ==> st == old(st)
      ensures forall h :: h in old(st.guards) ==> h in st.guards && st.guards[h] == old(st.guards)[h]
    {
      found := addr in st.table;
      if found {
        LookupMovesNothing(st, addr, g);
        ReachableStep(st, Get(addr, g));
        st := Apply(st, Get(addr, g));
      }
    }

    /** `FutexTable::get_or_insert`, with `q` the queue it would make. */
    method LookupOrInsert(addr: nat, g: nat, q: nat)
      requires Reachable(st) && g !in st.guards && q !in st.strong && q !in st.waiting
      modifies this`st
      ensures Reachable(st) && Holds(st, g, addr) && st.guards.Keys == old(st.guards.Keys) + {g}
      ensures SameEverywhere(old(st), st)
      ensures forall a :: a in old(st.table) ==> a in st.table && st.table[a] == old(st.table)[a]
      ensures forall h :: h in old(st.guards) ==> h in st.guards && st.guards[h] == old(st.guards)[h]
    {
      InsertMovesNothing(st, addr, g, q);
      ReachableStep(st, GetOrInsert(addr, g, q));
      st := Apply(st, GetOrInsert(addr, g, q));
    }

    /** A guard goes out of scope. */
    method DropGuard(g: nat)
      requires Reachable(st) && Live(st, g)
      modifies this`st
      ensures Reachable(st) && st.table == old(st.table) && SameEverywhere(old(st), st)
      ensures st.guards == old(st.guards) - {g}
    {
      DropMovesNothing(st, g);
      ReachableStep(st, DropBody(g));
      st := Apply(st, DropBody(g));
      ReachableStep(st, DropRef(g));
      st := Apply(st, DropRef(g));
    }

    /** `notify_one`: wakes the first task, if there is one. */
    method NotifyOne(g: nat, ghost addr: nat) returns (ok: bool)
      requires Reachable(st) && Holds(st, g, addr)
      modifies this
      ensures Reachable(st) && st.table == old(st.table) && st.guards == old(st.guards)
      ensures ok <==> Waiting(old(st), addr) != []
      ensures !ok ==> st == old(st) && woken == old(woken)
      ensures ok ==>
        && woken == old(woken) + [Waiting(old(st), addr)[0]]
        && Waiting(st, addr) == Waiting(old(st), addr)[1..] && SameElsewhere(old(st), st, addr, addr)
    {
      var queue := Queue(st, st.guards[g].queue);
      if queue == [] {
        return false;
      }
      OneQueueChanged(st, addr, queue[1..]);
      ReachableStep(st, WakeOne(g));
      woken := woken + [queue[0]];
      st := Apply(st, WakeOne(g));
      return true;
    }

    /** The wake loop both commands share: at most `value` tasks, until none is left. */
    method WakeLoop(g: nat, value: nat, ghost addr: nat) returns (count: nat)
      requires Reachable(st) && Holds(st, g, addr)
      modifies this
      ensures Reachable(st) && st.table == old(st.table) && st.guards == old(st.guards)
      ensures count == Min(|Waiting(old(st), addr)|, value)
      ensures woken == old(woken) + Waiting(old(st), addr)[..count]
      ensures Waiting(st, addr) == Waiting(old(st), addr)[count..] && SameElsewhere(old(st), st, addr, addr)
    {
      count := 0;
      ghost var q := Waiting(st, addr);
      for i := 0 to value
        invariant count == i <= |q|
        invariant Reachable(st) && st.table == old(st.table) && st.guards == old(st.guards)
        invariant Waiting(st, addr) == q[count..] && SameElsewhere(old(st), st, addr, addr)
        invariant woken == old(woken) + q[..count]
      {
        var ok := NotifyOne(g, addr);
        if !ok {
          break;
        }
        assert q[..count + 1] == q[..count] + [q[count]];
        count := count + 1;
      }
    }

    /** `requeue(n, target)`: moves tasks from the front to the back of another queue. */
    method MoveTasks(g: nat, g2: nat, n: nat, ghost addr: nat, ghost addr2: nat) returns (moved: nat)
      requires Reachable(st) && Holds(st, g, addr) && Holds(st, g2, addr2)
      modifies this`st
      ensures Reachable(st) && st.table == old(st.table) && st.guards == old(st.guards)
      ensures moved == Min(n, |Waiting(old(st), addr)|)
      ensures SameElsewhere(old(st), st, addr, addr2)
      ensures addr != addr2 ==>
        && Waiting(st, addr) == Waiting(old(st), addr)[moved..]
        && Waiting(st, addr2) == Waiting(old(st), addr2) + Waiting(old(st), addr)[..moved]
    {
      moved := Min(n, |Queue(st, st.guards[g].queue)|);
      MoveSeen(st, g, g2, n, addr, addr2);
      ReachableStep(st, FutexTable.Requeue(g, g2, n));
      st := Apply(st, FutexTable.Requeue(g, g2, n));
    }

    /** FUTEX_WAIT up to the point where the caller sleeps; `cmp` says whether the futex
        word has the expected value.  Its task is last in the queue of its address,
        and holds the guard while it sleeps. */
    method Wait(addr: nat, cmp: bool, task: Task, g: nat, q: nat) returns (waits: bool)
      requires Reachable(st) && g !in st.guards && q !in st.strong && q !in st.waiting
      modifies this`st
      ensures Reachable(st)
      ensures waits <==> cmp
      ensures !waits ==> st == old(st)
      ensures waits ==>
        && Holds(st, g, addr) && st.guards.Keys == old(st.guards.Keys) + {g}
        && Waiting(st, addr) == Waiting(old(st), addr) + [task] && SameElsewhere(old(st), st, addr, addr)
    {
      if !cmp {
        return false;
      }
      LookupOrInsert(addr, g, q);
      ghost var before := st;
      OneQueueChanged(st, addr, Waiting(st, addr) + [task]);
      ReachableStep(st, FutexTable.Wait(g, task));
      st := Apply(st, FutexTable.Wait(g, task));
      assert Waiting(st, addr) == Waiting(before, addr) + [task];
      return true;
    }

    /** A waiting task times out: it leaves its queue, and the others stay in order. */
    method TimeOut(addr: nat, i: nat)
      requires Reachable(st) && i < |Waiting(st, addr)|
      modifies this`st
      ensures Reachable(st) && st.table == old(st.table) && st.guards == old(st.guards)
      ensures Waiting(st, addr) == Waiting(old(st), addr)[..i] + Waiting(old(st), addr)[i + 1..]
      ensures SameElsewhere(old(st), st, addr, addr)
    {
      var (queue, id) := (Waiting(st, addr), st.table[addr]);
      OneQueueChanged(st, addr, queue[..i] + queue[i + 1..]);
      ReachableStep(st, FutexTable.TimeOut(id, i));
      st := Apply(st, FutexTable.TimeOut(id, i));
    }

    /** FUTEX_WAKE. */
    method Wake(addr: nat, value: nat, g: nat) returns (count: nat)
      requires Reachable(st) && g !in st.guards
      modifies this
      ensures Reachable(st) && st.guards == old(st.guards)
      ensures count == Min(|Waiting(old(st), addr)|, value)
      ensures woken == old(woken) + Waiting(old(st), addr)[..count]
      ensures Waiting(st, addr) == Waiting(old(st), addr)[count..] && SameElsewhere(old(st), st, addr, addr)
    {
      count := 0;
      var found := Lookup(addr, g);
      if found {
        count := WakeLoop(g, value, addr);
        DropGuard(g);
      }
    }

    /** What both requeue commands do through the two guards. */
    method WakeAndMove(g: nat, g2: nat, value: nat, value2: nat, ghost addr: nat, ghost addr2: nat)
      returns (count: nat)
      requires Reachable(st) && Holds(st, g, addr) && Holds(st, g2, addr2)
      modifies this
      ensures Reachable(st) && st.table == old(st.table) && st.guards == old(st.guards)
      ensures addr != addr2 ==>
        Requeued(old(st), st, old(woken), woken, addr, addr2, value, value2, count)
    {
      ghost var q := Waiting(st, addr);
      count := WakeLoop(g, value, addr);
      ghost var w := count;
      if count == value {
        var moved := MoveTasks(g, g2, value2, addr, addr2);
        count := count + moved;
        assert q[w..][..moved] == q[w..w + moved] && q[w..][moved..] == q[w + moved..];
      }
    }

    /** The commands from the second lookup on; `found` says whether the first one
        gave a guard. */
    method RequeueTo(addr: nat, addr2: nat, value: nat, value2: nat, found: bool, g: nat, g2: nat, q: nat)
      returns (count: nat)
      requires Reachable(st) && g2 !in st.guards && q !in st.strong && q !in st.waiting
      requires if found then Holds(st, g, addr) else addr !in st.table
      modifies this
      ensures Reachable(st) && st.guards == if found then old(st.guards) - {g} else old(st.guards)
      ensures addr != addr2 ==>
        Requeued(old(st), st, old(woken), woken, addr, addr2, value, value2, count)
    {
      LookupOrInsert(addr2, g2, q);
      ghost var before, after := st, st;
      count := 0;
      if found {
        count := WakeAndMove(g, g2, value, value2, addr, addr2);
        after := st;
        DropGuard(g);
      } else if addr != addr2 {
        NothingToMove(st, woken, addr, addr2, value, value2);
      }
      DropGuard(g2);
      if addr != addr2 {
        SeenAlike(old(st), before, after, st, old(woken), woken, addr, addr2, value, value2, count);
      }
    }

    /** FUTEX_REQUEUE and FUTEX_CMP_REQUEUE; `cmp` says whether the futex word still
        has the expected value, and `q` is the queue a new address would get. */
    method RequeueCall(addr: nat, addr2: nat, value: nat, value2: nat, cmp: bool, g: nat, g2: nat, q: nat)
      returns (r: FutexResult)
      requires Reachable(st) && g != g2 && g !in st.guards && g2 !in st.guards
      requires q !in st.strong && q !in st.waiting
      modifies this
      ensures Reachable(st) && st.guards == old(st.guards)
      ensures r == EAGAIN <==> !cmp
      ensures r == EAGAIN ==> st == old(st) && woken == old(woken)
      ensures cmp && addr != addr2 ==>
        r.Ok? && Requeued(old(st), st, old(woken), woken, addr, addr2, value, value2, r.count)
    {
      if !cmp {
        return EAGAIN;
      }
      var found := Lookup(addr, g);
      ghost var before := st;
      var count := RequeueTo(addr, addr2, value, value2, found, g, g2, q);
      if addr != addr2 {
        SeenAlike(old(st), before, st, st, old(woken), woken, addr, addr2, value, value2, count);
      }
      return Ok(count);
    }
  }
}
