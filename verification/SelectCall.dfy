/**
 The `select` system call: save the request, clear the user's sets, then poll
 round after round until something is ready or the deadline has passed.

 A round is what the caller's task meets in one pass of the polling loop: the
 readiness of every descriptor, and the clock when the deadline is compared.
 `rounds` is any finite prefix of what the call meets; when it runs out before
 the call returns, the call is still waiting.
 */
module SelectCall {
  import opened Words
  import opened Select

  type Sets = map<nat, seq<Word>>

  datatype Round = Round(snap: Snapshot, now: nat)

  datatype Deadline = Never | At(time: nat)

  datatype SelectResult = Count(n: nat) | EINVAL | EFAULT | StillWaiting

  predicate Late(deadline: Deadline, round: Round) {
    deadline.At? && round.now >= deadline.time
  }

  /** A user pointer that `get_as_mut` rejects. */
  predicate Faults(sets: Sets, p: nat) {
    p != 0 && p !in sets
  }

  predicate AllMapped(sets: Sets, r: nat, w: nat, e: nat) {
    !Faults(sets, r) && !Faults(sets, w) && !Faults(sets, e)
  }

  ghost predicate WellSized(sets: Sets) {
    forall p :: p in sets ==> |sets[p]| == FD_SETSIZE_USIZES
  }

  function Given(sets: Sets, p: nat): seq<Word> {
    if p != 0 && p in sets then sets[p] else []
  }

  /** The descriptors a user pointer names; null names none. */
  function Asked(sets: Sets, p: nat): set<nat> {
    Members(Given(sets, p))
  }

  function Clamp(nfds: nat): nat {
    if nfds < FD_SETSIZE then nfds else FD_SETSIZE
  }

  function Question(sets: Sets, r: nat, w: nat, e: nat): Request {
    Request(Asked(sets, r), Asked(sets, w), Asked(sets, e))
  }

  /** How many answers one snapshot gives. */
  function Answers(q: Request, limit: nat, snap: Snapshot): nat {
    |Ready(ForRead, q.r, limit, snap)| + |Ready(ForWrite, q.w, limit, snap)| + |Ready(ForError, q.e, limit, snap)|
  }

  function Store(sets: Sets, p: nat, ws: seq<Word>): Sets {
    if p == 0 then sets else sets[p := ws]
  }

  /** The write-back at the end of a round, in the kernel's order. */
  function WriteBack(sets: Sets, r: nat, w: nat, e: nat, res: Results): Sets {
    Store(Store(Store(sets, r, res.r), w, res.w), e, res.e)
  }

  lemma WriteBackTwice(sets: Sets, r: nat, w: nat, e: nat, a: Results, b: Results)
    ensures WriteBack(WriteBack(sets, r, w, e, a), r, w, e, b) == WriteBack(sets, r, w, e, b)
  {
  }

  /** Bits left in a user set after the call. */
  function Left(sets: Sets, p: nat): nat {
    |Asked(sets, p)|
  }

  ghost predicate Distinct(r: nat, w: nat, e: nat) {
    (r != w || r == 0) && (w != e || w == 0) && (r != e || r == 0)
  }

  /** What null pointers and words past `nfds` do to a request: nothing. */
  lemma SameReady(kind: Kind, a: set<nat>, b: set<nat>, limit: nat, snap: Snapshot)
    requires forall fd: nat :: fd < limit ==> (fd in a <==> fd in b)
    ensures Ready(kind, a, limit, snap) == Ready(kind, b, limit, snap)
  {
  }

  /** With distinct pointers the value returned is the number of bits left. */
  lemma DistinctSetsKeepTheCount(sets: Sets, r: nat, w: nat, e: nat, res: Results, limit: nat, snap: Snapshot)
    requires AllMapped(sets, r, w, e) && Distinct(r, w, e)
    requires res.Cover(Question(sets, r, w, e), limit, snap)
    ensures
      var after := WriteBack(sets, r, w, e, res);
      && Asked(after, r) == Ready(ForRead, Asked(sets, r), limit, snap)
      && Asked(after, w) == Ready(ForWrite, Asked(sets, w), limit, snap)
      && Asked(after, e) == Ready(ForError, Asked(sets, e), limit, snap)
      && res.num == Left(after, r) + Left(after, w) + Left(after, e)
  {
  }

  /** Bits left, counted for each of the three arguments. */
  function BitsLeft(sets: Sets, r: nat, w: nat, e: nat): nat {
    Left(sets, r) + Left(sets, w) + Left(sets, e)
  }

  /** Bits left, counted once for each set in memory. */
  function BitsInMemory(sets: Sets, r: nat, w: nat, e: nat): nat {
    Left(sets, r) + (if w == r then 0 else Left(sets, w)) + (if e == r || e == w then 0 else Left(sets, e))
  }

  /** A set asks about some descriptor below the limit. */
  predicate Names(sets: Sets, p: nat, limit: nat) {
    exists fd :: fd in Asked(sets, p) && fd < limit
  }

  /** Two of the arguments are the same set, and it asks about something. */
  predicate Clash(sets: Sets, r: nat, w: nat, e: nat, limit: nat) {
    || (r == w != 0 && Names(sets, r, limit))
    || (w == e != 0 && Names(sets, w, limit))
    || (r == e != 0 && Names(sets, r, limit))
  }

  lemma NothingReady(kind: Kind, sets: Sets, p: nat, limit: nat, snap: Snapshot)
    requires !Names(sets, p, limit)
    ensures Ready(kind, Asked(sets, p), limit, snap) == {}
  {
    assert forall fd :: fd in Asked(sets, p) ==> fd >= limit;
  }

  /** Without a clash the value returned is the number of bits left. */
  lemma ApartSetsKeepTheCount(sets: Sets, r: nat, w: nat, e: nat, res: Results, limit: nat, snap: Snapshot)
    requires AllMapped(sets, r, w, e) && !Clash(sets, r, w, e, limit)
    requires res.Cover(Question(sets, r, w, e), limit, snap)
    ensures
      var after := WriteBack(sets, r, w, e, res);
      res.num == BitsLeft(after, r, w, e) == BitsInMemory(after, r, w, e)
  {
    if Distinct(r, w, e) {
      DistinctSetsKeepTheCount(sets, r, w, e, res, limit, snap);
    } else {
      var p := if r == w != 0 then r else e;
      assert !Names(sets, p, limit);
      NothingReady(ForRead, sets, p, limit, snap);
      NothingReady(ForWrite, sets, p, limit, snap);
      NothingReady(ForError, sets, p, limit, snap);
    }
  }

  /** There are words for every answer. */
  lemma {:induction false} AnswerWords(kind: Kind, request: set<nat>, limit: nat, snap: Snapshot)
    returns (ws: seq<Word>)
    requires limit <= FD_SETSIZE
    ensures |ws| == FD_SETSIZE_USIZES && Members(ws) == Ready(kind, request, limit, snap)
    decreases limit
  {
    if limit == 0 {
      ws := seq(FD_SETSIZE_USIZES, _ => Zero);
      NoMembers(ws);
    } else {
      ws := AnswerWords(kind, request, limit - 1, snap);
      var c := limit - 1 in request && Holds(kind, snap, limit - 1);
      MarkIfReady(kind, ws, request, limit - 1, snap, c);
      ws := MarkIf(ws, limit - 1, c);
    }
  }

  lemma AnswerExists(q: Request, limit: nat, snap: Snapshot) returns (res: Results)
    requires limit <= FD_SETSIZE
    ensures res.Cover(q, limit, snap)
  {
    var r := AnswerWords(ForRead, q.r, limit, snap);
    var w := AnswerWords(ForWrite, q.w, limit, snap);
    var e := AnswerWords(ForError, q.e, limit, snap);
    res := Results(r, w, e, |Members(r)| + |Members(w)| + |Members(e)|);
  }

  /** When everything is only readable, or only writable, the answers of one kind
      are all there are. */
  lemma OneKindOnly(q: Request, limit: nat, snap: Snapshot, reading: bool)
    requires snap == ((fd: nat) => PollOk(reading, !reading))
    ensures Ready(ForError, q.e, limit, snap) == {}
    ensures reading ==> Ready(ForWrite, q.w, limit, snap) == {}
    ensures !reading ==> Ready(ForRead, q.r, limit, snap) == {}
    ensures forall fd :: fd < limit && fd in q.r && reading ==> fd in Ready(ForRead, q.r, limit, snap)
    ensures forall fd :: fd < limit && fd in q.w && !reading ==> fd in Ready(ForWrite, q.w, limit, snap)
  {
  }

  /** With a clash there is a snapshot whose answer is hidden by the later
      write-back of an empty one. */
  lemma ClashLosesBits(sets: Sets, r: nat, w: nat, e: nat, limit: nat) returns (snap: Snapshot, res: Results)
    requires AllMapped(sets, r, w, e) && limit <= FD_SETSIZE && Clash(sets, r, w, e, limit)
    ensures res.Cover(Question(sets, r, w, e), limit, snap)
    ensures
      var after := WriteBack(sets, r, w, e, res);
      res.num > BitsLeft(after, r, w, e) >= BitsInMemory(after, r, w, e)
  {
    // The read answer is hidden by a later set, or else the write answer is.
    var reading := r != 0 && (r == w || r == e) && Names(sets, r, limit);
    snap := (fd: nat) => PollOk(reading, !reading);
    var q := Question(sets, r, w, e);
    res := AnswerExists(q, limit, snap);
    OneKindOnly(q, limit, snap, reading);
    var p := if reading then r else w;
    var fd :| fd in Asked(sets, p) && fd < limit;
    if reading {
      assert fd in Members(res.r);
    } else {
      assert fd in Members(res.w);
    }
  }

  /** For instance: with descriptor 0 asked about in a set used for reading and
      writing, and readable but not writable, 1 is returned and no bit is left. */
  lemma AliasedSetsDoMiscount(snap: Snapshot, res: Results) returns (sets: Sets)
    requires snap(0) == PollOk(true, false)
    ensures AllMapped(sets, 8, 8, 0) && WellSized(sets) && Asked(sets, 8) == {0}
    ensures res.Cover(Question(sets, 8, 8, 0), FD_SETSIZE, snap) ==>
      res.num == 1 && Left(WriteBack(sets, 8, 8, 0, res), 8) == 0
  {
    var zeros := seq(FD_SETSIZE_USIZES, _ => Zero);
    NoMembers(zeros);
    sets := map[8 := Marked(zeros, 0)];
    assert Asked(sets, 8) == {0} && Asked(sets, 0) == {};
    assert Ready(ForRead, {0}, FD_SETSIZE, snap) == {0};
    assert Ready(ForWrite, {0}, FD_SETSIZE, snap) == {};
  }

  ghost predicate AlwaysRight(sets: Sets, r: nat, w: nat, e: nat, limit: nat) {
    forall snap: Snapshot, res: Results :: res.Cover(Question(sets, r, w, e), limit, snap) ==>
      res.num == BitsLeft(WriteBack(sets, r, w, e, res), r, w, e)
  }

  ghost predicate AlwaysRightInMemory(sets: Sets, r: nat, w: nat, e: nat, limit: nat) {
    forall snap: Snapshot, res: Results :: res.Cover(Question(sets, r, w, e), limit, snap) ==>
      res.num == BitsInMemory(WriteBack(sets, r, w, e, res), r, w, e)
  }

  /** The value returned is right whatever the descriptors do, however shared sets
      are counted, iff no two arguments are one set that asks about something. */
  lemma CountIsRightExactly(sets: Sets, r: nat, w: nat, e: nat, limit: nat)
    requires AllMapped(sets, r, w, e) && limit <= FD_SETSIZE
    ensures AlwaysRight(sets, r, w, e, limit) <==> !Clash(sets, r, w, e, limit)
    ensures AlwaysRightInMemory(sets, r, w, e, limit) <==> !Clash(sets, r, w, e, limit)
  {
    if Clash(sets, r, w, e, limit) {
      var snap, res := ClashLosesBits(sets, r, w, e, limit);
    } else {
      forall snap: Snapshot, res: Results | res.Cover(Question(sets, r, w, e), limit, snap)
        ensures
          var after := WriteBack(sets, r, w, e, res);
          res.num == BitsLeft(after, r, w, e) == BitsInMemory(after, r, w, e)
      {
        ApartSetsKeepTheCount(sets, r, w, e, res, limit, snap);
      }
    }
  }

  /** The kernel's copy holds the request, below the descriptor limit. */
  ghost predicate Saved(f: FdSets, q: Request) {
    && f.Valid()
    && (forall fd: nat :: fd < f.nfds ==> (fd in f.Row(0) <==> fd in q.r))
    && (forall fd: nat :: fd < f.nfds ==> (fd in f.Row(1) <==> fd in q.w))
    && (forall fd: nat :: fd < f.nfds ==> (fd in f.Row(2) <==> fd in q.e))
  }

  /** No bit is set in any of the three. */
  ghost predicate Blank(res: Results) {
    Members(res.r) == Members(res.w) == Members(res.e) == {}
  }

  lemma NoneIsBlank(res: Results, q: Request, limit: nat, snap: Snapshot)
    requires res.Cover(q, limit, snap) && res.num == 0
    ensures Blank(res)
  {
  }

  /** Rounds in which nothing was ready and the deadline had not passed. */
  ghost predicate Fruitless(q: Request, limit: nat, deadline: Deadline, rounds: seq<Round>) {
    forall k :: 0 <= k < |rounds| ==> Answers(q, limit, rounds[k].snap) == 0 && !Late(deadline, rounds[k])
  }

  class UserMemory {
    var sets: Sets

    /** One polling round with its write-back. */
    method Round(f: FdSets, snap: Snapshot, r: nat, w: nat, e: nat, ghost q: Request) returns (res: Results)
      requires Saved(f, q)
      modifies this
      ensures res.Cover(q, f.nfds, snap)
      ensures sets == WriteBack(old(sets), r, w, e, res)
    {
      res := f.PollAll(snap);
      SameReady(ForRead, f.Row(0), q.r, f.nfds, snap);
      SameReady(ForWrite, f.Row(1), q.w, f.nfds, snap);
      SameReady(ForError, f.Row(2), q.e, f.nfds, snap);
      if r != 0 { sets := sets[r := res.r]; }
      if w != 0 { sets := sets[w := res.w]; }
      if e != 0 { sets := sets[e := res.e]; }
    }

    /** The polling loop, one round after another until something is ready or the
        deadline has passed; `mem` is the memory before the call. */
    method PollUntil(f: FdSets, deadline: Deadline, rounds: seq<Round>, r: nat, w: nat, e: nat,
                     blank: Results, ghost q: Request, ghost mem: Sets)
      returns (done: bool, last: nat, res: Results)
      requires Saved(f, q) && Blank(blank) && sets == WriteBack(mem, r, w, e, blank)
      modifies this
      ensures done ==>
        && last < |rounds| && res.Cover(q, f.nfds, rounds[last].snap)
        && sets == WriteBack(mem, r, w, e, res)
        && (res.num == 0 ==> Late(deadline, rounds[last]))
        && Fruitless(q, f.nfds, deadline, rounds[..last])
      ensures !done ==>
        && Fruitless(q, f.nfds, deadline, rounds)
        && Blank(res) && sets == WriteBack(mem, r, w, e, res)
    {
      res := blank;
      for k := 0 to |rounds|
        invariant Blank(res) && sets == WriteBack(mem, r, w, e, res)
        invariant Fruitless(q, f.nfds, deadline, rounds[..k])
      {
        ghost var c := res;
        res := Round(f, rounds[k].snap, r, w, e, q);
        WriteBackTwice(mem, r, w, e, c, res);
        if res.num > 0 || Late(deadline, rounds[k]) {
          return true, k, res;
        }
        NoneIsBlank(res, q, f.nfds, rounds[k].snap);
        assert rounds[..k + 1] == rounds[..k] + [rounds[k]];
      }
      assert rounds[..|rounds|] == rounds;
      done, last := false, 0;
    }

    /** `sys_select`.  `last` is the round that decided, and `res` its results. */
    method SysSelect(nfds: int, r: nat, w: nat, e: nat, deadline: Deadline, rounds: seq<Round>)
      returns (out: SelectResult, last: nat, res: Results)
      requires WellSized(sets)
      modifies this
      ensures nfds < 0 ==> out == EINVAL
      ensures nfds >= 0 ==> (out == EFAULT <==> !AllMapped(old(sets), r, w, e))
      ensures out == EINVAL <==> nfds < 0
      ensures out == EINVAL || out == EFAULT ==> sets == old(sets)
      ensures out.Count? ==>
        var q := Question(old(sets), r, w, e);
        && last < |rounds| && res.Cover(q, Clamp(nfds), rounds[last].snap)
        && sets == WriteBack(old(sets), r, w, e, res)
        && out.n == res.num == Answers(q, Clamp(nfds), rounds[last].snap)
        && (out.n == 0 ==> Late(deadline, rounds[last]))
        && (!Clash(old(sets), r, w, e, Clamp(nfds)) ==>
          out.n == BitsLeft(sets, r, w, e) == BitsInMemory(sets, r, w, e))
        && Fruitless(q, Clamp(nfds), deadline, rounds[..last])
      ensures out == StillWaiting ==>
        && Fruitless(Question(old(sets), r, w, e), Clamp(nfds), deadline, rounds)
        && Blank(res) && sets == WriteBack(old(sets), r, w, e, res)
    {
      last := 0;
      var zeros := seq(FD_SETSIZE_USIZES, _ => Zero);
      res := Results(zeros, zeros, zeros, 0);
      if nfds < 0 {
        return EINVAL, last, res;
      }
      if !AllMapped(sets, r, w, e) {
        return EFAULT, last, res;
      }
      ghost var q := Question(sets, r, w, e);
      var f := FdSets.From(nfds, [Given(sets, r), Given(sets, w), Given(sets, e)]);
      assert f.nfds == Clamp(nfds);
      // clear_fd_set on each pointer
      sets := WriteBack(sets, r, w, e, res);
      var done: bool;
      done, last, res := PollUntil(f, deadline, rounds, r, w, e, res, q, old(sets));
      if !done {
        return StillWaiting, last, res;
      }
      if !Clash(old(sets), r, w, e, f.nfds) {
        ApartSetsKeepTheCount(old(sets), r, w, e, res, f.nfds, rounds[last].snap);
      }
      return Count(res.num), last, res;
    }
  }
}
