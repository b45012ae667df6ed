/**
 The three multiplexers compared: for one interest list and one snapshot, which
 descriptors does each of `select`, `poll` and `epoll` call ready?
 */
module MultiplexAgreement {
  import opened Select
  import opened Multiplex

  /** The same interest, put as a `select` request. */
  function AsSelect(m: Interest): Request {
    Request(set fd | fd in m && In in m[fd].events,
            set fd | fd in m && Out in m[fd].events,
            set fd | fd in m && Err in m[fd].events)
  }

  /** The same interest in one descriptor, put as a `poll` entry. */
  function AsPoll(m: Interest, fd: nat): PollFd {
    PollFd(fd, Registered(m, fd).events, {})
  }

  function SelectReady(kind: Kind, m: Interest, limit: nat, world: World): set<nat> {
    var q := AsSelect(m);
    Ready(kind, match kind case ForRead => q.r case ForWrite => q.w case ForError => q.e, limit, Polled(world))
  }

  /** On a descriptor that polls successfully all three agree, flag by flag;
      `epoll` names one flag and prefers readable. */
  lemma AgreeWhenOpen(m: Interest, world: World, limit: nat, fd: nat)
    requires fd in m && fd < limit && world(fd).Open?
    ensures
      var (rr, rw) := (SelectReady(ForRead, m, limit, world), SelectReady(ForWrite, m, limit, world));
      && Revents(AsPoll(m, fd), world) == (if fd in rr then {In} else {}) + (if fd in rw then {Out} else {})
      && Fired(m[fd], world(fd)) == (if fd in rr then {In} else if fd in rw then {Out} else {})
      && fd !in SelectReady(ForError, m, limit, world)
  {
    assert Polled(world)(fd) == PollOk(world(fd).readable, world(fd).writable);
  }

  /** On the others `select` and `epoll` report an error to those who asked,
      while `poll` always reports one. */
  lemma AgreeWhenFailing(m: Interest, world: World, limit: nat, fd: nat)
    requires fd in m && fd < limit && !world(fd).Open?
    ensures fd !in SelectReady(ForRead, m, limit, world) && fd !in SelectReady(ForWrite, m, limit, world)
    ensures fd in SelectReady(ForError, m, limit, world) <==> Err in m[fd].events
    ensures Fires(m, world, fd) <==> Err in m[fd].events
    ensures Revents(AsPoll(m, fd), world) != {}
  {
    assert Polled(world)(fd) == PollErr;
    assert Fired(m[fd], world(fd)) == if Err in m[fd].events then {Err} else {};
    var revents := Revents(AsPoll(m, fd), world);
    if world(fd).Missing? {
      assert Nval in revents;
    } else {
      assert Err in revents;
    }
  }

  /** `epoll` and `select` always agree on who is ready; `poll` agrees with them
      exactly when the descriptor polls successfully or errors were asked for. */
  lemma AgreementIsExact(m: Interest, world: World, limit: nat, fd: nat)
    requires fd in m && fd < limit
    ensures
      var (rr, rw, re) := (SelectReady(ForRead, m, limit, world), SelectReady(ForWrite, m, limit, world),
                           SelectReady(ForError, m, limit, world));
      && (Fires(m, world, fd) <==> fd in rr + rw + re)
      && ((Revents(AsPoll(m, fd), world) != {} <==> Fires(m, world, fd))
        <==> world(fd).Open? || Err in m[fd].events)
  {
    if world(fd).Open? {
      AgreeWhenOpen(m, world, limit, fd);
    } else {
      AgreeWhenFailing(m, world, limit, fd);
    }
  }

  /** They can disagree: on a closed descriptor watched for input only `poll` reports. */
  lemma PollStandsAlone(fd: nat, data: nat, world: World, limit: nat)
    requires fd < limit && world(fd).Missing?
    ensures
      var m: Interest := map[fd := EpollEvent({In}, data)];
      Revents(AsPoll(m, fd), world) == {Nval} && !Fires(m, world, fd) && SelectUnion(m, limit, world) == {}
  {
    var m: Interest := map[fd := EpollEvent({In}, data)];
    AgreeWhenFailing(m, world, limit, fd);
  }

  function Elements(q: seq<nat>): (s: set<nat>)
    ensures forall x :: x in s <==> x in q
  {
    if q == [] then {}
    else
      assert q == q[..|q| - 1] + [q[|q| - 1]];
      Elements(q[..|q| - 1]) + {q[|q| - 1]}
  }

  lemma {:induction false} IncreasingCounts(q: seq<nat>)
    requires Increasing(q)
    ensures |Elements(q)| == |q|
  {
    if q != [] {
      IncreasingCounts(q[..|q| - 1]);
      assert q[|q| - 1] !in q[..|q| - 1];
    }
  }

  /** Everything that any of the three `select` results names. */
  function SelectUnion(m: Interest, limit: nat, world: World): set<nat> {
    SelectReady(ForRead, m, limit, world) + SelectReady(ForWrite, m, limit, world)
    + SelectReady(ForError, m, limit, world)
  }

  lemma FiringInUnion(m: Interest, world: World, limit: nat, fd: nat)
    requires forall fd :: fd in m ==> fd < limit
    ensures fd in SelectUnion(m, limit, world) <==> fd in m && Fires(m, world, fd)
  {
    if fd in m {
      AgreementIsExact(m, world, limit, fd);
    }
  }

  /** With room for all, `epoll` reports each descriptor of the three `select`
      results once, in ascending order. */
  lemma EpollReportsTheUnion(m: Interest, world: World, limit: nat)
    requires forall fd :: fd in m ==> fd < limit
    ensures
      var q := Firing(Ascending(m.Keys), m, world);
      && Increasing(q)
      && Elements(q) == SelectUnion(m, limit, world)
      && |q| == |SelectUnion(m, limit, world)|
  {
    var keys := Ascending(m.Keys);
    FiringKeepsOrder(keys, m, world);
    FiringIs(keys, m, world);
    IncreasingCounts(Firing(keys, m, world));
    forall fd: nat ensures fd in SelectUnion(m, limit, world) <==> fd in Elements(Firing(keys, m, world)) {
      FiringInUnion(m, world, limit, fd);
    }
  }

  // ------------------------------------------------------------- epoll_ctl

  /** The interest list after a history of `epoll_ctl` calls. */
  function AfterAll(h: seq<Ctl>): Interest {
    if h == [] then map[] else AfterCtl(AfterAll(h[..|h| - 1]), h[|h| - 1]).0
  }

  function About(h: seq<Ctl>, fd: nat): (r: seq<Ctl>) {
    if h == [] then []
    else About(h[..|h| - 1], fd) + if h[|h| - 1].fd == fd then [h[|h| - 1]] else []
  }

  lemma CtlIsLocal(a: Interest, b: Interest, c: Ctl, fd: nat)
    requires SameEntry(a, b, fd)
    ensures c.fd == fd ==> SameEntry(AfterCtl(a, c).0, AfterCtl(b, c).0, fd) && AfterCtl(a, c).1 == AfterCtl(b, c).1
    ensures c.fd != fd ==> SameEntry(AfterCtl(a, c).0, b, fd)
  {
  }

  /** What is registered for a descriptor, and what the next call about it
      answers, depends on the calls about that descriptor alone. */
  lemma {:induction false} HistoriesAreIndependent(h: seq<Ctl>, fd: nat, next: Ctl)
    requires next.fd == fd
    ensures SameEntry(AfterAll(h), AfterAll(About(h, fd)), fd)
    ensures AfterCtl(AfterAll(h), next).1 == AfterCtl(AfterAll(About(h, fd)), next).1
  {
    if h != [] {
      var init, last := h[..|h| - 1], h[|h| - 1];
      var r := About(init, fd);
      HistoriesAreIndependent(init, fd, next);
      CtlIsLocal(AfterAll(init), AfterAll(r), last, fd);
      assert (r + [last])[..|r|] == r;
      assert About(h, fd) == if last.fd == fd then r + [last] else r;
    }
    CtlIsLocal(AfterAll(h), AfterAll(About(h, fd)), next, fd);
  }

  /** The call at `k` of a history succeeded and was about the descriptor. */
  ghost predicate Changes(h: seq<Ctl>, k: nat, fd: nat) {
    k < |h| && h[k].fd == fd && AfterCtl(AfterAll(h[..k]), h[k]).1 == CtlOk
  }

  /** The call at `k` registered the descriptor, and no later one changed that. */
  ghost predicate LastWord(h: seq<Ctl>, k: nat, fd: nat) {
    Changes(h, k, fd) && h[k].op != Del && forall j: nat :: k < j ==> !Changes(h, j, fd)
  }

  lemma ShorterHistory(h: seq<Ctl>, k: nat, fd: nat)
    requires h != [] && k < |h| - 1
    ensures Changes(h, k, fd) <==> Changes(h[..|h| - 1], k, fd)
  {
    assert h[..|h| - 1][..k] == h[..k];
  }

  lemma LastWordStays(h: seq<Ctl>, k: nat, fd: nat)
    requires h != [] && k < |h| - 1 && !Changes(h, |h| - 1, fd)
    ensures LastWord(h, k, fd) <==> LastWord(h[..|h| - 1], k, fd)
  {
    var init := h[..|h| - 1];
    assert init[k] == h[k];
    ShorterHistory(h, k, fd);
    forall j: nat | k < j ensures Changes(h, j, fd) <==> Changes(init, j, fd) {
      if j < |h| - 1 {
        ShorterHistory(h, j, fd);
      }
    }
    if LastWord(init, k, fd) {
      forall j: nat | k < j ensures !Changes(h, j, fd) {
        assert !Changes(init, j, fd);
      }
    }
    if LastWord(h, k, fd) {
      forall j: nat | k < j ensures !Changes(init, j, fd) {
        assert !Changes(h, j, fd);
      }
    }
  }

  /** After any history the interest in a descriptor is the event of the last
      successful Add or Mod about it, unless a successful Del came later. */
  lemma {:induction false} InterestIsLastWord(h: seq<Ctl>, fd: nat, k: nat)
    ensures LastWord(h, k, fd) ==> fd in AfterAll(h) && AfterAll(h)[fd] == h[k].event
    ensures fd in AfterAll(h) ==> exists k :: LastWord(h, k, fd)
    decreases |h|
  {
    if h != [] {
      var init, n := h[..|h| - 1], |h| - 1;
      CtlIsExact(AfterAll(init), h[n]);
      assert h[..n] == init;
      if Changes(h, n, fd) {
        if h[n].op != Del {
          assert LastWord(h, n, fd);
        }
      } else {
        assert SameEntry(AfterAll(init), AfterAll(h), fd);
        InterestIsLastWord(init, fd, k);
        if k < n {
          LastWordStays(h, k, fd);
        }
        if fd in AfterAll(h) {
          var i :| LastWord(init, i, fd);
          LastWordStays(h, i, fd);
        }
      }
    }
  }

  /** For instance, what was deleted is not reported. */
  lemma DeletedIsSilent(h: seq<Ctl>, c: Ctl, world: World)
    requires c.op == Del && AfterCtl(AfterAll(h), c).1 == CtlOk
    ensures !Fires(AfterAll(h + [c]), world, c.fd)
  {
    assert (h + [c])[..|h|] == h;
    CtlIsExact(AfterAll(h), c);
  }
}
