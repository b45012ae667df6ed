/**
 The futex table of one process: wait queues shared through reference-counted
 handles, and guards that try to unlink a queue when they are dropped.

 `strong` is the strong count of each `Arc<WaitQueue>`, moved only by clone and
 drop.  Dropping a guard is two steps, as in the kernel: the body of `drop`
 decides under the table lock, and the reference goes away after it.
 */
module FutexTable {
  import opened Common

  type Task = nat

  /** A guard, and whether the body of its `drop` has already run. */
  datatype Guard = Guard(key: nat, queue: nat, dropping: bool)

  datatype State = State(
    table: map<nat, nat>,
    guards: map<nat, Guard>,
    strong: map<nat, int>,
    waiting: map<nat, seq<Task>>)

  datatype Event =
    | Get(addr: nat, g: nat)
    | GetOrInsert(addr: nat, g: nat, q: nat)
    | DropBody(g: nat)
    | DropRef(g: nat)
    | Wait(g: nat, task: Task)
    | WakeOne(g: nat)
    | Requeue(g: nat, g2: nat, n: nat)
    | TimeOut(q: nat, i: nat)

  const Init := State(map[], map[], map[], map[])

  function Count(m: map<nat, int>, q: nat): int {
    if q in m then m[q] else 0
  }

  function Queue(s: State, q: nat): seq<Task> {
    if q in s.waiting then s.waiting[q] else []
  }

  predicate Live(s: State, g: nat) {
    g in s.guards && !s.guards[g].dropping
  }

  predicate Enabled(s: State, e: Event) {
    match e
    case Get(addr, g) => g !in s.guards && addr in s.table
    case GetOrInsert(addr, g, q) => g !in s.guards && (addr !in s.table ==> q !in s.strong && q !in s.waiting)
    case DropBody(g) => Live(s, g)
    case DropRef(g) => g in s.guards && s.guards[g].dropping
    case Wait(g, _) => Live(s, g)
    case WakeOne(g) => Live(s, g)
    case Requeue(g, g2, _) => Live(s, g) && Live(s, g2)
    case TimeOut(q, i) => i < |Queue(s, q)|
  }

  /** Hand out a guard on a queue that is in the table. */
  function Hand(s: State, g: nat, addr: nat, q: nat): State {
    s.(guards := s.guards[g := Guard(addr, q, false)], strong := s.strong[q := Count(s.strong, q) + 1])
  }

  /** Unlink whatever the table holds at `addr`, dropping its reference. */
  function Unlink(s: State, addr: nat): State {
    if addr !in s.table then s
    else s.(table := s.table - {addr}, strong := s.strong[s.table[addr] := Count(s.strong, s.table[addr]) - 1])
  }

  /** Tasks join a queue at the back. */
  function Append(s: State, q: nat, tasks: seq<Task>): State {
    s.(waiting := s.waiting[q := Queue(s, q) + tasks])
  }

  function Apply(s: State, e: Event): State
    requires Enabled(s, e)
  {
    match e
    case Get(addr, g) => Hand(s, g, addr, s.table[addr])
    case GetOrInsert(addr, g, q) =>
      if addr in s.table then Hand(s, g, addr, s.table[addr])
      else Hand(s.(table := s.table[addr := q], strong := s.strong[q := 1], waiting := s.waiting[q := []]), g, addr, q)
    case DropBody(g) =>
      var w := s.guards[g];
      var s' := if Count(s.strong, w.queue) == 1 && Queue(s, w.queue) == [] then Unlink(s, w.key) else s;
      s'.(guards := s.guards[g := w.(dropping := true)])
    case DropRef(g) =>
      var q := s.guards[g].queue;
      s.(guards := s.guards - {g}, strong := s.strong[q := Count(s.strong, q) - 1])
    case Wait(g, task) => Append(s, s.guards[g].queue, [task])
    case WakeOne(g) =>
      var q := s.guards[g].queue;
      if Queue(s, q) == [] then s else s.(waiting := s.waiting[q := Queue(s, q)[1..]])
    case Requeue(g, g2, n) =>
      var a := s.guards[g].queue;
      var k := Min(n, |Queue(s, a)|);
      Append(s.(waiting := s.waiting[a := Queue(s, a)[k..]]), s.guards[g2].queue, Queue(s, a)[..k])
    case TimeOut(q, i) =>
      s.(waiting := s.waiting[q := Queue(s, q)[..i] + Queue(s, q)[i + 1..]])
  }

  // ---------------------------------------------------------------- invariant

  function GuardsOn(s: State, q: nat): (gs: set<nat>) {
    set g | g in s.guards && s.guards[g].queue == q
  }

  ghost predicate Linked(s: State, q: nat) {
    exists a :: a in s.table && s.table[a] == q
  }

  /** Strong count: one for the table, one for each guard. */
  ghost predicate CountedAt(s: State, q: nat) {
    Count(s.strong, q) == (if Linked(s, q) then 1 else 0) + |GuardsOn(s, q)|
  }

  ghost predicate Counted(s: State) {
    forall q: nat :: CountedAt(s, q)
  }

  ghost predicate Inv(s: State) {
    && Counted(s)
    && (forall a, b :: a in s.table && b in s.table && s.table[a] == s.table[b] ==> a == b)
    && (forall a :: a in s.table ==> s.table[a] in s.strong)
    && (forall g :: g in s.guards ==> s.guards[g].key in s.table && s.table[s.guards[g].key] == s.guards[g].queue)
    && (forall q :: q in s.waiting && s.waiting[q] != [] ==> Linked(s, q))
  }

  /** A queue that some guard holds has a count of two at least: the guard and
      the table.  So the test in `drop` for being the last owner fails. */
  lemma GuardIsNeverLast(s: State, g: nat)
    requires Inv(s) && g in s.guards
    ensures Count(s.strong, s.guards[g].queue) >= 2
  {
    var q := s.guards[g].queue;
    assert g in GuardsOn(s, q) && Linked(s, q);
    assert CountedAt(s, q);
  }

  /** Linking depends on the table alone. */
  lemma SameLinks(s: State, s': State)
    requires s'.table == s.table
    ensures forall q :: Linked(s', q) <==> Linked(s, q)
  {
    forall q ensures Linked(s', q) <==> Linked(s, q) {
    }
  }

  lemma HandCounts(s: State, g: nat, addr: nat, q0: nat, q: nat)
    requires CountedAt(s, q) && g !in s.guards
    ensures CountedAt(Hand(s, g, addr, q0), q)
  {
    var s' := Hand(s, g, addr, q0);
    assert Linked(s', q) <==> Linked(s, q);
    if q == q0 {
      assert GuardsOn(s', q) == GuardsOn(s, q) + {g};
    } else {
      assert GuardsOn(s', q) == GuardsOn(s, q);
    }
  }

  lemma HandKeepsInv(s: State, g: nat, addr: nat)
    requires Inv(s) && g !in s.guards && addr in s.table
    ensures Inv(Hand(s, g, addr, s.table[addr]))
  {
    forall q: nat ensures CountedAt(Hand(s, g, addr, s.table[addr]), q) {
      HandCounts(s, g, addr, s.table[addr], q);
    }
    SameLinks(s, Hand(s, g, addr, s.table[addr]));
  }

  lemma InsertKeepsInv(s: State, addr: nat, q0: nat)
    requires Inv(s) && addr !in s.table && q0 !in s.strong && q0 !in s.waiting
    ensures Inv(s.(table := s.table[addr := q0], strong := s.strong[q0 := 1], waiting := s.waiting[q0 := []]))
  {
    var s' := s.(table := s.table[addr := q0], strong := s.strong[q0 := 1], waiting := s.waiting[q0 := []]);
    assert Count(s.strong, q0) == 0;
    assert s'.table[addr] == q0;
    forall q: nat ensures CountedAt(s', q)
      ensures Linked(s, q) ==> Linked(s', q)
    {
      assert CountedAt(s, q);
      assert GuardsOn(s', q) == GuardsOn(s, q);
      if Linked(s, q) {
        var a :| a in s.table && s.table[a] == q;
        assert s'.table[a] == q;
      }
      assert q != q0 ==> (Linked(s', q) <==> Linked(s, q));
    }
  }

  lemma DropRefKeepsInv(s: State, g: nat)
    requires Inv(s) && g in s.guards && s.guards[g].dropping
    ensures Inv(Apply(s, DropRef(g)))
  {
    var s' := Apply(s, DropRef(g));
    SameLinks(s, s');
    forall q: nat ensures CountedAt(s', q) {
      assert CountedAt(s, q);
      assert GuardsOn(s', q) == GuardsOn(s, q) - {g};
    }
  }

  lemma DropBodyKeepsInv(s: State, g: nat)
    requires Inv(s) && Live(s, g)
    ensures Apply(s, DropBody(g)).table == s.table
    ensures Inv(Apply(s, DropBody(g)))
  {
    GuardIsNeverLast(s, g);
    var s' := Apply(s, DropBody(g));
    SameLinks(s, s');
    forall q: nat ensures CountedAt(s', q) {
      assert CountedAt(s, q);
      assert GuardsOn(s', q) == GuardsOn(s, q);
    }
  }

  /** Moving waiters about only ever fills queues that are linked. */
  lemma WaitersKeepInv(s: State, w: map<nat, seq<Task>>)
    requires Inv(s) && forall q :: q in w && w[q] != [] ==> Linked(s, q)
    ensures Inv(s.(waiting := w))
  {
    var s' := s.(waiting := w);
    SameLinks(s, s');
    forall q: nat ensures CountedAt(s', q) {
      assert CountedAt(s, q) && GuardsOn(s', q) == GuardsOn(s, q);
    }
  }

  lemma StepKeepsInv(s: State, e: Event)
    requires Inv(s) && Enabled(s, e)
    ensures Inv(Apply(s, e))
  {
    match e {
      case Get(addr, g) => HandKeepsInv(s, g, addr);
      case GetOrInsert(addr, g, q) =>
        if addr in s.table {
          HandKeepsInv(s, g, addr);
        } else {
          InsertKeepsInv(s, addr, q);
          var s1 := s.(table := s.table[addr := q], strong := s.strong[q := 1], waiting := s.waiting[q := []]);
          HandKeepsInv(s1, g, addr);
        }
      case DropBody(g) => DropBodyKeepsInv(s, g);
      case DropRef(g) => DropRefKeepsInv(s, g);
      case Wait(g, _) =>
        assert Linked(s, s.guards[g].queue);
        WaitersKeepInv(s, Apply(s, e).waiting);
      case WakeOne(g) =>
        assert Linked(s, s.guards[g].queue);
        WaitersKeepInv(s, Apply(s, e).waiting);
      case Requeue(g, g2, _) =>
        assert Linked(s, s.guards[g].queue) && Linked(s, s.guards[g2].queue);
        WaitersKeepInv(s, Apply(s, e).waiting);
      case TimeOut(q, _) => WaitersKeepInv(s, Apply(s, e).waiting);
    }
  }

  // ---------------------------------------------------------------- every run

  ghost predicate IsRun(ss: seq<State>, es: seq<Event>) {
    && |ss| == |es| + 1 && ss[0] == Init
    && forall i :: 0 <= i < |es| ==> Enabled(ss[i], es[i]) && ss[i + 1] == Apply(ss[i], es[i])
  }

  lemma InitInv()
    ensures Inv(Init)
  {
    forall q: nat ensures GuardsOn(Init, q) == {} {
    }
  }

  lemma {:induction false} RunKeepsInv(ss: seq<State>, es: seq<Event>, i: nat)
    requires IsRun(ss, es) && i < |ss|
    ensures Inv(ss[i])
  {
    InitInv();
    if i > 0 {
      RunKeepsInv(ss, es, i - 1);
      StepKeepsInv(ss[i - 1], es[i - 1]);
    }
  }

  /** The states that some run gets to. */
  ghost predicate Reachable(s: State) {
    exists ss, es :: IsRun(ss, es) && ss[|es|] == s
  }

  lemma InitReachable()
    ensures Reachable(Init)
  {
    assert IsRun([Init], []);
  }

  lemma ReachableInv(s: State)
    requires Reachable(s)
    ensures Inv(s)
  {
    var ss, es :| IsRun(ss, es) && ss[|es|] == s;
    RunKeepsInv(ss, es, |es|);
  }

  lemma ReachableStep(s: State, e: Event)
    requires Reachable(s) && Enabled(s, e)
    ensures Reachable(Apply(s, e))
  {
    var ss, es :| IsRun(ss, es) && ss[|es|] == s;
    var ss', es' := ss + [Apply(s, e)], es + [e];
    forall i | 0 <= i < |es'| ensures Enabled(ss'[i], es'[i]) && ss'[i + 1] == Apply(ss'[i], es'[i]) {
      if i < |es| {
        assert ss'[i] == ss[i] && es'[i] == es[i];
      }
    }
    assert IsRun(ss', es') && ss'[|es'|] == Apply(s, e);
  }

  lemma StepKeepsQueue(s: State, e: Event, addr: nat)
    requires Inv(s) && Enabled(s, e) && addr in s.table
    ensures addr in Apply(s, e).table && Apply(s, e).table[addr] == s.table[addr]
  {
    if e.DropBody? {
      DropBodyKeepsInv(s, e.g);
    }
  }

  /** Once an address has a queue it keeps that queue for the rest of the run:
      dropping guards never unlinks one. */
  lemma {:induction false} QueueIsPermanent(ss: seq<State>, es: seq<Event>, i: nat, j: nat, addr: nat)
    requires IsRun(ss, es) && i <= j < |ss| && addr in ss[i].table
    ensures addr in ss[j].table && ss[j].table[addr] == ss[i].table[addr]
    decreases j - i
  {
    if i < j {
      QueueIsPermanent(ss, es, i, j - 1, addr);
      RunKeepsInv(ss, es, j - 1);
      StepKeepsQueue(ss[j - 1], es[j - 1], addr);
    }
  }

  /** All guards ever handed out for one address, at any two moments of a run,
      are on the same queue. */
  lemma GuardsShareTheQueue(ss: seq<State>, es: seq<Event>, i: nat, j: nat, g: nat, g2: nat)
    requires IsRun(ss, es) && i <= j < |ss|
    requires g in ss[i].guards && g2 in ss[j].guards && ss[i].guards[g].key == ss[j].guards[g2].key
    ensures ss[i].guards[g].queue == ss[j].guards[g2].queue
  {
    RunKeepsInv(ss, es, i);
    RunKeepsInv(ss, es, j);
    QueueIsPermanent(ss, es, i, j, ss[i].guards[g].key);
  }

  /** In every state of every run, a task that waits is on a queue the table leads
      to, and so does every later state's table, from the same address. */
  lemma NobodyIsStranded(ss: seq<State>, es: seq<Event>, i: nat, j: nat, q: nat) returns (addr: nat)
    requires IsRun(ss, es) && i <= j < |ss| && Queue(ss[i], q) != []
    ensures addr in ss[i].table && ss[i].table[addr] == q
    ensures addr in ss[j].table && ss[j].table[addr] == q
  {
    RunKeepsInv(ss, es, i);
    assert Linked(ss[i], q);
    addr :| addr in ss[i].table && ss[i].table[addr] == q;
    QueueIsPermanent(ss, es, i, j, addr);
  }
}
