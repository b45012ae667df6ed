/**
 `poll` and `epoll`, and how they compare with `select` on one snapshot.

 An event mask is the set of its flags; the constants of the three interfaces
 coincide bit for bit, so one `Flag` type serves `poll` and `epoll`.
 */
module Multiplex {
  import opened Select

  datatype Flag = In | Out | Err | Nval | Unused(bit: nat)

  type Mask = set<Flag>

  /** A descriptor as one poll meets it: no such descriptor, a file whose `poll`
      fails, or a file with its readiness. */
  datatype FdState = Missing | Broken | Open(readable: bool, writable: bool)

  type World = int -> FdState

  /** `get_file_like(fd).and_then(|f| f.poll())`. */
  function Polled(world: World): Snapshot {
    (fd: nat) => match world(fd)
      case Open(r, w) => PollOk(r, w)
      case _ => PollErr
  }

  function Level(s: FdState): Mask {
    (if s.Open? && s.readable then {In} else {}) + (if s.Open? && s.writable then {Out} else {})
  }

  // --------------------------------------------------------------------- poll

  datatype PollFd = PollFd(fd: int, events: Mask, revents: Mask)

  /** What `poll` promises to report for one entry. */
  function Revents(p: PollFd, world: World): Mask {
    if p.fd < 0 then {}
    else match world(p.fd)
      case Missing => {Nval}
      case Broken => {Err}
      case Open(_, _) => p.events * Level(world(p.fd))
  }

  function Reporting(ps: seq<PollFd>): (s: set<nat>) {
    set i: nat | i < |ps| && ps[i].revents != {}
  }

  lemma ReportingStep(ps: seq<PollFd>, p: PollFd)
    ensures |Reporting(ps + [p])| == |Reporting(ps)| + if p.revents != {} then 1 else 0
  {
    assert Reporting(ps + [p]) == Reporting(ps) + if p.revents != {} then {|ps|} else {};
  }

  /** The body of the loop of `poll_fds`. */
  method PollOne(p0: PollFd, world: World) returns (p: PollFd, ready: bool)
    ensures p == p0.(revents := Revents(p0, world))
    ensures ready <==> p.revents != {}
  {
    p, ready := p0.(revents := {}), false;
    if p.fd < 0 {
      return;
    }
    match world(p.fd) {
      case Open(readable, writable) =>
        if In in p.events && readable {
          p := p.(revents := p.revents + {In});
        }
        if Out in p.events && writable {
          p := p.(revents := p.revents + {Out});
        }
        ready := p.revents != {};
        assert p.revents == p.events * Level(world(p.fd));
      case Broken =>
        p, ready := p.(revents := {Err}), true;
      case Missing =>
        p, ready := p.(revents := {Nval}), true;
    }
  }

  /** `poll_fds`: writes every `revents` in place and counts the entries whose
      `revents` is not zero. */
  method PollFds(fds: array<PollFd>, world: World) returns (readyCount: nat)
    modifies fds
    ensures forall i :: 0 <= i < fds.Length ==>
      fds[i] == old(fds[i]).(revents := Revents(old(fds[i]), world))
    ensures readyCount == |Reporting(fds[..])|
  {
    readyCount := 0;
    for i := 0 to fds.Length
      invariant forall j :: 0 <= j < i ==> fds[j] == old(fds[j]).(revents := Revents(old(fds[j]), world))
      invariant forall j :: i <= j < fds.Length ==> fds[j] == old(fds[j])
      invariant readyCount == |Reporting(fds[..i])|
    {
      ghost var before := fds[..i];
      var p, ready := PollOne(fds[i], world);
      fds[i] := p;
      if ready {
        readyCount := readyCount + 1;
      }
      assert fds[..i + 1] == before + [p];
      ReportingStep(before, p);
    }
    assert fds[..fds.Length] == fds[..];
  }

  // -------------------------------------------------------------------- epoll

  datatype EpollEvent = EpollEvent(events: Mask, data: nat)

  datatype CtlOp = Add | Del | Mod | Unknown(op: int)

  datatype CtlResult = CtlOk | EBADF | EEXIST | ENOENT | EINVAL

  type Interest = map<nat, EpollEvent>

  datatype Ctl = Ctl(op: CtlOp, fd: nat, event: EpollEvent, isOpen: bool)

  /** What one `epoll_ctl` call does to the interest list. */
  function AfterCtl(m: Interest, c: Ctl): (Interest, CtlResult) {
    if !c.isOpen then (m, EBADF)
    else match c.op
      case Add => if c.fd in m then (m, EEXIST) else (m[c.fd := c.event], CtlOk)
      case Mod => if c.fd in m then (m[c.fd := c.event], CtlOk) else (m, ENOENT)
      case Del => if c.fd in m then (m - {c.fd}, CtlOk) else (m, ENOENT)
      case Unknown(_) => (m, EINVAL)
  }

  ghost predicate SameEntry(a: Interest, b: Interest, fd: nat) {
    (fd in a <==> fd in b) && (fd in a ==> a[fd] == b[fd])
  }

  /** What a caller of `epoll_ctl` may rely on: when it gets which answer, that a
      refused call changes nothing, that a descriptor is registered afterwards with
      the event given, or not at all, and that no other descriptor is touched. */
  ghost predicate CtlDoes(m: Interest, c: Ctl, m': Interest, r: CtlResult) {
    && (r == EBADF <==> !c.isOpen)
    && (r == EEXIST <==> c.isOpen && c.op == Add && c.fd in m)
    && (r == ENOENT <==> c.isOpen && (c.op == Mod || c.op == Del) && c.fd !in m)
    && (r == EINVAL <==> c.isOpen && c.op.Unknown?)
    && (r != CtlOk ==> m' == m)
    && (r == CtlOk && c.op == Del ==> c.fd in m && c.fd !in m')
    && (r == CtlOk && c.op != Del ==> (c.fd in m <==> c.op == Mod) && c.fd in m' && m'[c.fd] == c.event)
    && forall fd: nat :: fd != c.fd ==> SameEntry(m, m', fd)
  }

  lemma CtlIsExact(m: Interest, c: Ctl)
    ensures CtlDoes(m, c, AfterCtl(m, c).0, AfterCtl(m, c).1)
  {
  }

  /** The flag `epoll` reports for one entry; readable goes before writable. */
  function Fired(ev: EpollEvent, s: FdState): Mask {
    if !s.Open? then ev.events * {Err}
    else if s.readable && In in ev.events then {In}
    else if s.writable && Out in ev.events then {Out}
    else {}
  }

  lemma {:induction false} HasLeast(s: set<nat>, x: nat)
    requires x in s
    ensures exists m :: m in s && forall y :: y in s ==> m <= y
  {
    if y :| y in s && y < x {
      HasLeast(s, y);
    }
  }

  function Least(s: set<nat>): (m: nat)
    requires s != {}
    ensures m in s && forall y :: y in s ==> m <= y
  {
    HasLeast(s, var x :| x in s; x);
    var m :| m in s && forall y :: y in s ==> m <= y;
    m
  }

  /** The keys of the interest list in the order the kernel's map yields them. */
  function Ascending(s: set<nat>): (q: seq<nat>)
    ensures Increasing(q)
    ensures forall x :: x in q <==> x in s
  {
    if s == {} then []
    else
      var m := Least(s);
      var rest := Ascending(s - {m});
      assert forall i :: 0 <= i < |rest| ==> rest[i] in rest;
      [m] + rest
  }

  /** The registration of a descriptor; one without interest if there is none. */
  function Registered(m: Interest, fd: nat): EpollEvent {
    if fd in m then m[fd] else EpollEvent({}, 0)
  }

  predicate Fires(m: Interest, world: World, fd: nat) {
    Fired(Registered(m, fd), world(fd)) != {}
  }

  /** Those of `keys` that have something to report, in order. */
  function Firing(keys: seq<nat>, m: Interest, world: World): (q: seq<nat>) {
    if keys == [] then []
    else
      var last := keys[|keys| - 1];
      Firing(keys[..|keys| - 1], m, world) + if Fires(m, world, last) then [last] else []
  }

  lemma {:induction false} FiringIs(keys: seq<nat>, m: Interest, world: World)
    ensures forall x :: x in Firing(keys, m, world) <==> x in keys && Fires(m, world, x)
  {
    if keys != [] {
      FiringIs(keys[..|keys| - 1], m, world);
      assert keys == keys[..|keys| - 1] + [keys[|keys| - 1]];
    }
  }

  ghost predicate Increasing(q: seq<nat>) {
    forall i, j :: 0 <= i < j < |q| ==> q[i] < q[j]
  }

  lemma {:induction false} FiringKeepsOrder(keys: seq<nat>, m: Interest, world: World)
    requires Increasing(keys)
    ensures Increasing(Firing(keys, m, world))
  {
    if keys != [] {
      var init, last := keys[..|keys| - 1], keys[|keys| - 1];
      FiringKeepsOrder(init, m, world);
      FiringIs(init, m, world);
      var q, full := Firing(init, m, world), Firing(keys, m, world);
      forall i | 0 <= i < |q| ensures q[i] < last {
        assert q[i] in init;
      }
      assert full == q + if Fires(m, world, last) then [last] else [];
    }
  }

  lemma {:induction false} FiringPrefix(keys: seq<nat>, k: nat, m: Interest, world: World)
    requires k <= |keys|
    ensures Firing(keys[..k], m, world) <= Firing(keys, m, world)
    decreases |keys|
  {
    if k == |keys| {
      assert keys[..k] == keys;
    } else {
      var init := keys[..|keys| - 1];
      assert init[..k] == keys[..k];
      FiringPrefix(init, k, m, world);
    }
  }

  lemma FiringSnoc(keys: seq<nat>, k: nat, m: Interest, world: World)
    requires k < |keys|
    ensures Firing(keys[..k + 1], m, world)
         == Firing(keys[..k], m, world) + if Fires(m, world, keys[k]) then [keys[k]] else []
  {
    assert keys[..k + 1][..k] == keys[..k];
  }

  /** Stopping after `k` keys, at the end or at a full buffer, loses nothing. */
  lemma FiringCut(keys: seq<nat>, k: nat, m: Interest, world: World, room: nat)
    requires k <= |keys| && |Firing(keys[..k], m, world)| <= room
    requires k == |keys| || |Firing(keys[..k], m, world)| == room
    ensures
      var (q, all) := (Firing(keys[..k], m, world), Firing(keys, m, world));
      |q| == (if |all| < room then |all| else room) && q == all[..|q|]
  {
    FiringPrefix(keys, k, m, world);
    assert k == |keys| ==> keys[..k] == keys;
  }

  /** One report: the flag, with the data registered for the descriptor. */
  function Report(m: Interest, world: World, fd: nat): EpollEvent {
    EpollEvent(Fired(Registered(m, fd), world(fd)), Registered(m, fd).data)
  }

  /** What a report tells: the registered data, and one flag that was asked for and
      holds, readable before writable, or the error of a descriptor that does not
      poll. */
  ghost predicate Truthful(m: Interest, world: World, fd: nat, ev: EpollEvent) {
    && fd in m && ev.data == m[fd].data
    && match world(fd)
      case Open(readable, writable) =>
        || (ev.events == {In} && readable && In in m[fd].events)
        || (ev.events == {Out} && writable && Out in m[fd].events && !(readable && In in m[fd].events))
      case _ => ev.events == {Err} && Err in m[fd].events
  }

  lemma ReportIsTruthful(m: Interest, world: World, fd: nat)
    requires Fires(m, world, fd)
    ensures Truthful(m, world, fd, Report(m, world, fd))
  {
    assert fd in m;
    if !world(fd).Open? {
      assert m[fd].events * {Err} != {} ==> Err in m[fd].events;
      assert Err in m[fd].events ==> m[fd].events * {Err} == {Err};
    }
  }

  function Reports(fds: seq<nat>, m: Interest, world: World): (q: seq<EpollEvent>)
    ensures |q| == |fds|
  {
    seq(|fds|, i requires 0 <= i < |fds| => Report(m, world, fds[i]))
  }

  lemma ReportsSnoc(fds: seq<nat>, fd: nat, m: Interest, world: World)
    ensures Reports(fds + [fd], m, world) == Reports(fds, m, world) + [Report(m, world, fd)]
  {
  }

  lemma AllTruthful(q: seq<nat>, n: nat, m: Interest, world: World, keys: seq<nat>, out: seq<EpollEvent>)
    requires q == Firing(keys, m, world) && n <= |q| && out == Reports(q[..n], m, world)
    ensures forall i :: 0 <= i < n ==> Truthful(m, world, q[i], out[i])
  {
    FiringIs(keys, m, world);
    forall i | 0 <= i < n ensures Truthful(m, world, q[i], out[i]) {
      assert q[i] in q;
      ReportIsTruthful(m, world, q[i]);
    }
  }

  class EpollInstance {
    var events: Interest

    constructor ()
      ensures events == map[]
    {
      events := map[];
    }

    method Control(c: Ctl) returns (r: CtlResult)
      modifies this
      ensures (events, r) == AfterCtl(old(events), c)
      ensures CtlDoes(old(events), c, events, r)
    {
      if !c.isOpen {
        return EBADF;
      }
      match c.op {
        case Add =>
          if c.fd in events {
            return EEXIST;
          }
          events := events[c.fd := c.event];
        case Mod =>
          if c.fd !in events {
            return ENOENT;
          }
          events := events[c.fd := c.event];
        case Del =>
          if c.fd !in events {
            return ENOENT;
          }
          events := events - {c.fd};
        case Unknown(_) =>
          return EINVAL;
      }
      return CtlOk;
    }

    /** The branches of `poll_all`: at most one flag for each descriptor. */
    method Flagged(ev: EpollEvent, s: FdState) returns (flag: Mask)
      ensures flag == Fired(ev, s)
    {
      flag := {};
      match s {
        case Open(readable, writable) =>
          if readable && In in ev.events {
            flag := {In};
          } else if writable && Out in ev.events {
            flag := {Out};
          }
        case _ =>
          if Err in ev.events {
            flag := {Err};
          }
      }
    }

    /** The body of the loop of `poll_all`, with `q` the descriptors reported so far. */
    method ReportOne(out: array<EpollEvent>, n: nat, fd: nat, world: World, ghost q: seq<nat>) returns (n': nat)
      requires fd in events && n < out.Length && n == |q| && out[..n] == Reports(q, events, world)
      modifies out
      ensures n' == n + if Fires(events, world, fd) then 1 else 0
      ensures out[..n'] == Reports(q + if Fires(events, world, fd) then [fd] else [], events, world)
      ensures forall i :: n' <= i < out.Length ==> out[i] == old(out[i])
    {
      n' := n;
      var flag := Flagged(events[fd], world(fd));
      if flag != {} {
        ReportsSnoc(q, fd, events, world);
        ghost var before := out[..n];
        out[n] := EpollEvent(flag, events[fd].data);
        n' := n + 1;
        assert out[..n'] == before + [Report(events, world, fd)];
      } else {
        assert q + [] == q;
      }
    }

    /** The loop of `poll_all`: `k` keys were looked at, all of them unless the
        array filled up. */
    method Scan(keys: seq<nat>, out: array<EpollEvent>, world: World) returns (n: nat, ghost k: nat)
      requires forall fd :: fd in keys ==> fd in events
      modifies out
      ensures k <= |keys| && n <= out.Length && (k == |keys| || n == out.Length)
      ensures n == |Firing(keys[..k], events, world)|
      ensures out[..n] == Reports(Firing(keys[..k], events, world), events, world)
      ensures forall i :: n <= i < out.Length ==> out[i] == old(out[i])
    {
      n, k := 0, 0;
      ghost var q: seq<nat> := [];
      var i := 0;
      while i < |keys| && n < out.Length
        invariant 0 <= i <= |keys| && n <= out.Length
        invariant q == Firing(keys[..i], events, world)
        invariant n == |q| && out[..n] == Reports(q, events, world)
        invariant forall i :: n <= i < out.Length ==> out[i] == old(out[i])
      {
        var fd := keys[i];
        assert fd in keys;
        n := ReportOne(out, n, fd, world, q);
        FiringSnoc(keys, i, events, world);
        q := q + if Fires(events, world, fd) then [fd] else [];
        i := i + 1;
      }
      k := i;
    }

    /** `poll_all`: one report for each of the first `out.Length` firing
        descriptors in ascending order. */
    method PollAll(out: array<EpollEvent>, world: World) returns (n: nat)
      modifies out
      ensures
        var q := Firing(Ascending(events.Keys), events, world);
        && n == (if |q| < out.Length then |q| else out.Length)
        && out[..n] == Reports(q[..n], events, world)
        && forall i :: 0 <= i < n ==> Truthful(events, world, q[i], out[i])
      ensures forall i :: n <= i < out.Length ==> out[i] == old(out[i])
    {
      var keys := Ascending(events.Keys);
      ghost var k: nat;
      n, k := Scan(keys, out, world);
      FiringCut(keys, k, events, world, out.Length);
      AllTruthful(Firing(keys, events, world), n, events, world, keys, out[..n]);
    }
  }
}
