/**
 The hard-link manager: a map from link to target, and a count of links per
 target that is moved by one at a time.

 `removals` is every call to the file system's `remove_file` for a target, in
 order.
 */
module HardLinks {
  import opened Common

  type Path = string

  datatype State = State(links: map<Path, Path>, counts: map<Path, nat>, removals: seq<Path>)

  /** The two operations that change the links, under the manager's lock. */
  datatype Op = Update(src: Path, dst: Path) | Remove(src: Path)

  datatype LinkResult = Linked | NotFound | NotFile

  const Init := State(map[], map[], [])

  /** The links that lead to `d`. */
  function Sources(links: map<Path, Path>, d: Path): (s: set<Path>) {
    set x | x in links && links[x] == d
  }

  /** A target is counted iff something links to it, with the number of links. */
  ghost predicate Agrees(s: State) {
    forall d: Path :: CountAt(s, d) == |Sources(s.links, d)| && (d in s.counts <==> CountAt(s, d) > 0)
  }

  function CountAt(s: State, d: Path): nat {
    if d in s.counts then s.counts[d] else 0
  }

  /** `decrease_ref_count`. */
  function Lowered(s: State, d: Path): State {
    if d !in s.counts || s.counts[d] == 0 then s
    else if s.counts[d] == 1 then State(s.links, s.counts - {d}, s.removals + [d])
    else State(s.links, s.counts[d := s.counts[d] - 1], s.removals)
  }

  function Raised(s: State, src: Path, dst: Path): State {
    State(s.links[src := dst], s.counts[dst := CountAt(s, dst) + 1], s.removals)
  }

  function Apply(s: State, op: Op): State {
    match op
    case Update(src, dst) =>
      if src in s.links then
        if s.links[src] == dst then s else Raised(Lowered(s, s.links[src]), src, dst)
      else Raised(s, src, dst)
    case Remove(src) =>
      if src in s.links then Lowered(State(s.links - {src}, s.counts, s.removals), s.links[src]) else s
  }

  function Run(ops: seq<Op>): State {
    if ops == [] then Init else Apply(Run(ops[..|ops| - 1]), ops[|ops| - 1])
  }

  /** The links alone: what the operations mean without any counting. */
  function LinksAfter(links: map<Path, Path>, op: Op): map<Path, Path> {
    match op
    case Update(src, dst) => links[src := dst]
    case Remove(src) => links - {src}
  }

  function LinksOf(ops: seq<Op>): map<Path, Path> {
    if ops == [] then map[] else LinksAfter(LinksOf(ops[..|ops| - 1]), ops[|ops| - 1])
  }

  /** The targets whose last link an operation takes away, of which there is at
      most one: the reference for when a file goes. */
  ghost predicate LosesLast(links: map<Path, Path>, op: Op, d: Path) {
    Sources(links, d) != {} && Sources(LinksAfter(links, op), d) == {}
  }

  lemma SourcesLose(links: map<Path, Path>, src: Path, d: Path)
    requires src in links
    ensures Sources(links - {src}, d) == Sources(links, d) - {src}
    ensures |Sources(links, d)| == |Sources(links - {src}, d)| + if links[src] == d then 1 else 0
  {
    var all, less := Sources(links, d), Sources(links - {src}, d);
    assert less == all - {src};
    if links[src] == d {
      assert all == less + {src};
    } else {
      assert all == less;
    }
  }

  lemma SourcesGain(links: map<Path, Path>, src: Path, dst: Path, d: Path)
    requires src !in links
    ensures |Sources(links[src := dst], d)| == |Sources(links, d)| + if dst == d then 1 else 0
  {
    var less, all := Sources(links, d), Sources(links[src := dst], d);
    if dst == d {
      assert all == less + {src};
    } else {
      assert all == less;
    }
  }

  /** Taking one link away and lowering its target keeps the count right, and
      removes the target's file exactly when that was its last link. */
  lemma LowerAgrees(s: State, src: Path)
    requires Agrees(s) && src in s.links
    ensures
      var d := s.links[src];
      var s' := Lowered(s, d);
      && Agrees(State(s.links - {src}, s'.counts, s'.removals))
      && s'.links == s.links
      && s'.removals == s.removals + if Sources(s.links - {src}, d) == {} then [d] else []
  {
    var d := s.links[src];
    SourcesLose(s.links, src, d);
    assert CountAt(s, d) == |Sources(s.links, d)|;
    var s' := State(s.links - {src}, Lowered(s, d).counts, Lowered(s, d).removals);
    forall e: Path
      ensures CountAt(s', e) == |Sources(s'.links, e)| && (e in s'.counts <==> CountAt(s', e) > 0)
    {
      SourcesLose(s.links, src, e);
      assert CountAt(s, e) == |Sources(s.links, e)|;
    }
  }

  lemma RaiseAgrees(s: State, src: Path, dst: Path)
    requires Agrees(s) && src !in s.links
    ensures Agrees(Raised(s, src, dst))
  {
    var s' := Raised(s, src, dst);
    forall e: Path
      ensures CountAt(s', e) == |Sources(s'.links, e)| && (e in s'.counts <==> CountAt(s', e) > 0)
    {
      SourcesGain(s.links, src, dst, e);
      assert CountAt(s, e) == |Sources(s.links, e)|;
    }
  }

  lemma RaiseAfterLower(s: State, src: Path, dst: Path)
    requires Agrees(s) && src in s.links
    ensures Agrees(Raised(Lowered(s, s.links[src]), src, dst))
  {
    var low := Lowered(s, s.links[src]);
    LowerAgrees(s, src);
    RaiseAgrees(State(s.links - {src}, low.counts, low.removals), src, dst);
    assert (s.links - {src})[src := dst] == s.links[src := dst];
  }

  /** One operation: the count stays the number of links, the links change as
      asked, and the target's file is removed exactly when its last link goes. */
  lemma StepIsExact(s: State, op: Op)
    requires Agrees(s)
    ensures Agrees(Apply(s, op))
    ensures Apply(s, op).links == LinksAfter(s.links, op)
    ensures s.removals <= Apply(s, op).removals
    ensures forall d: Path :: d in Apply(s, op).removals[|s.removals|..] <==> LosesLast(s.links, op, d)
    ensures |Apply(s, op).removals| <= |s.removals| + 1
  {
    if op.src in s.links {
      var was := s.links[op.src];
      LowerAgrees(s, op.src);
      if op.Remove? || was != op.dst {
        if op.Update? {
          RaiseAfterLower(s, op.src, op.dst);
        }
        forall d: Path ensures d in Apply(s, op).removals[|s.removals|..] <==> LosesLast(s.links, op, d) {
          LastGoes(s.links, op, d);
        }
      }
    } else {
      assert s.links - {op.src} == s.links;
      if op.Update? {
        RaiseAgrees(s, op.src, op.dst);
      }
      forall d: Path ensures !LosesLast(s.links, op, d) {
        assert Sources(s.links, d) <= Sources(LinksAfter(s.links, op), d);
      }
    }
  }

  /** Only the target the link used to have can lose its last link. */
  lemma LastGoes(links: map<Path, Path>, op: Op, d: Path)
    requires op.src in links && (op.Update? ==> links[op.src] != op.dst)
    ensures LosesLast(links, op, d) <==> d == links[op.src] && Sources(links - {op.src}, d) == {}
  {
    var before, after := Sources(links, d), Sources(LinksAfter(links, op), d);
    assert before - {op.src} <= after;
    if d == links[op.src] {
      assert op.src in before && op.src !in after;
      assert after == Sources(links - {op.src}, d);
    } else {
      assert before <= after;
    }
  }

  /** Over every sequence of updates and removals the manager holds the links that
      were asked for and counts them exactly. */
  lemma {:induction false} RunIsExact(ops: seq<Op>)
    ensures Agrees(Run(ops)) && Run(ops).links == LinksOf(ops)
  {
    if ops != [] {
      RunIsExact(ops[..|ops| - 1]);
      StepIsExact(Run(ops[..|ops| - 1]), ops[|ops| - 1]);
    } else {
      assert forall d: Path :: Sources(Init.links, d) == {};
    }
  }

  /** Counts and links after one history depend on the resulting links only, not on
      the order or number of the operations that led there. */
  lemma CountsForgetHistory(ops: seq<Op>, ops': seq<Op>)
    requires LinksOf(ops) == LinksOf(ops')
    ensures Run(ops).counts == Run(ops').counts
  {
    RunIsExact(ops);
    RunIsExact(ops');
    var s, t := Run(ops), Run(ops');
    forall d: Path ensures d in s.counts <==> d in t.counts {
      assert CountAt(s, d) == |Sources(s.links, d)| == CountAt(t, d);
    }
    forall d: Path | d in s.counts ensures s.counts[d] == t.counts[d] {
      assert CountAt(s, d) == |Sources(s.links, d)| == CountAt(t, d);
    }
  }

  // --------------------------------------------------------------- the files

  /** Every link leads to a file. */
  ghost predicate TargetsExist(links: map<Path, Path>, files: set<Path>) {
    forall x :: x in links ==> links[x] in files
  }

  /** The paths an operation asks the file system to remove: the target whose count
      falls to zero, and for the removal of a path that is no link the path itself. */
  function Asked(s: State, op: Op): (ps: set<Path>) {
    (set i | |s.removals| <= i < |Apply(s, op).removals| :: Apply(s, op).removals[i])
    + (if op.Remove? && op.src !in s.links then {op.src} else {})
  }

  /** Unlinking a path that is itself a target removes its file and leaves the links
      to it. */
  predicate Dangles(s: State, op: Op) {
    op.Remove? && op.src !in s.links && Sources(s.links, op.src) != {}
  }

  lemma AskedMeans(s: State, op: Op, d: Path)
    requires Agrees(s)
    ensures d in Asked(s, op) <==>
      LosesLast(s.links, op, d) || (op.Remove? && op.src !in s.links && d == op.src)
  {
    StepIsExact(s, op);
    var after := Apply(s, op).removals;
    if d in after[|s.removals|..] {
      var i :| 0 <= i < |after| - |s.removals| && after[|s.removals|..][i] == d;
      assert after[|s.removals| + i] == d;
    }
    if d in Asked(s, op) && !(op.Remove? && op.src !in s.links && d == op.src) {
      var i :| |s.removals| <= i < |after| && after[i] == d;
      assert after[|s.removals|..][i - |s.removals|] == d;
    }
  }

  /** With links to existing targets only, and updates to existing targets only, every
      link still leads to a file afterwards, whatever the file system removes of what
      it was asked to, iff the operation does not unlink a path that links lead to. */
  lemma TargetsExistExactly(s: State, files: set<Path>, op: Op)
    requires Agrees(s) && TargetsExist(s.links, files) && (op.Update? ==> op.dst in files)
    ensures TargetsExist(Apply(s, op).links, files - Asked(s, op)) <==> !Dangles(s, op)
    ensures !Dangles(s, op) ==> forall files': set<Path> :: files - Asked(s, op) <= files' ==>
      TargetsExist(Apply(s, op).links, files')
  {
    StepIsExact(s, op);
    var links' := Apply(s, op).links;
    if Dangles(s, op) {
      AskedMeans(s, op, op.src);
      var x :| x in Sources(s.links, op.src);
      assert x in links' && links'[x] == op.src;
    } else {
      forall x | x in links' ensures links'[x] in files - Asked(s, op) {
        AskedMeans(s, op, links'[x]);
        assert x in Sources(links', links'[x]);
        if op.Remove? && links'[x] == op.src {
          assert x in Sources(s.links, op.src);
        }
      }
    }
  }

  /** It happens: after linking "a" to "b", unlinking "b" leaves "a" with no file. */
  lemma LinkDangles()
    ensures Run([Update("a", "b")]).links == map["a" := "b"]
    ensures Dangles(Run([Update("a", "b")]), Remove("b"))
    ensures !TargetsExist(Run([Update("a", "b"), Remove("b")]).links,
                          {"b"} - Asked(Run([Update("a", "b")]), Remove("b")))
  {
    var ops := [Update("a", "b"), Remove("b")];
    assert ops[..1] == [Update("a", "b")] && [Update("a", "b")][..0] == [];
    var s := Run([Update("a", "b")]);
    assert s == Apply(Init, Update("a", "b"));
    assert "a" in Sources(s.links, "b");
    RunIsExact([Update("a", "b")]);
    TargetsExistExactly(s, {"b"}, Remove("b"));
    assert Run(ops) == Apply(s, Remove("b"));
  }

  class Manager {
    var links: map<Path, Path>
    var counts: map<Path, nat>
    var removals: seq<Path>

    function View(): State
      reads this
    {
      State(links, counts, removals)
    }

    constructor ()
      ensures View() == Init
    {
      links, counts, removals := map[], map[], [];
    }

    /** An uncounted path is the logged error; a counted one must have something to
        take from, or the subtraction underflows. */
    method DecreaseRefCount(path: Path) returns (known: bool)
      requires path in counts ==> counts[path] > 0
      modifies this`counts, this`removals
      ensures known <==> path in old(counts)
      ensures View() == Lowered(old(View()), path)
    {
      if path !in counts {
        return false;
      }
      counts := counts[path := counts[path] - 1];
      if counts[path] == 0 {
        counts := counts - {path};
        removals := removals + [path];
        assert counts == old(counts) - {path};
      }
      return true;
    }

    method LinkUpdate(src: Path, dst: Path)
      requires Agrees(View())
      modifies this
      ensures View() == Apply(old(View()), Update(src, dst))
      ensures Agrees(View())
    {
      StepIsExact(View(), Update(src, dst));
      if src in links {
        var oldDst := links[src];
        if oldDst == dst {
          return;
        }
        assert CountAt(View(), oldDst) > 0 by {
          assert src in Sources(links, oldDst);
        }
        var known := DecreaseRefCount(oldDst);
        assert known;
      }
      links := links[src := dst];
      counts := counts[dst := (if dst in counts then counts[dst] else 0) + 1];
    }

    method LinkRemove(src: Path) returns (dst: Option<Path>)
      requires Agrees(View())
      modifies this
      ensures View() == Apply(old(View()), Remove(src))
      ensures Agrees(View())
      ensures dst == if src in old(links) then Some(old(links)[src]) else None
    {
      StepIsExact(View(), Remove(src));
      if src !in links {
        return None;
      }
      var d := links[src];
      assert CountAt(View(), d) > 0 by {
        assert src in Sources(links, d);
      }
      links := links - {src};
      var known := DecreaseRefCount(d);
      assert known;
      return Some(d);
    }

    /** `exists_` and `isDir` are what the file system says of `dst`. */
    method CreateLink(src: Path, dst: Path, exists_: bool, isDir: bool) returns (r: LinkResult)
      requires Agrees(View())
      modifies this
      ensures r == NotFound <==> !exists_
      ensures r == NotFile <==> exists_ && !isDir
      ensures View() == if r == Linked then Apply(old(View()), Update(src, dst)) else old(View())
      ensures Agrees(View())
    {
      if !exists_ {
        return NotFound;
      }
      if !isDir {
        return NotFile;
      }
      LinkUpdate(src, dst);
      return Linked;
    }

    /** `removed` is how the file system answers when `src` is no link and is
        itself to be removed. */
    method RemoveLink(src: Path, removed: bool) returns (r: Option<Path>)
      requires Agrees(View())
      modifies this
      ensures View() == Apply(old(View()), Remove(src))
      ensures Agrees(View())
      ensures r == if src in old(links) then Some(old(links)[src]) else if removed then Some(src) else None
    {
      r := LinkRemove(src);
      if r.None? && removed {
        r := Some(src);
      }
    }

    /** The number of links, or else whether the file exists at all. */
    method LinkCount(path: Path, exists_: bool) returns (n: nat)
      requires Agrees(View())
      ensures n == if Sources(links, path) != {} then |Sources(links, path)| else if exists_ then 1 else 0
    {
      assert CountAt(View(), path) == |Sources(links, path)|;
      if path in counts {
        return counts[path];
      }
      return if exists_ then 1 else 0;
    }
  }
}
