/** A 64-bit machine word as its bits, lowest first. */
module Words {
  import opened Common

  type Word = w: seq<bool> | |w| == 64 witness Repeat(false, 64)

  const Zero: Word := Repeat(false, 64)

  /** `1 << k`. */
  function Single(k: nat): (w: Word)
    requires k < 64
  {
    Zero[k := true]
  }

  function Or(a: Word, b: Word): (w: Word) {
    seq(64, i requires 0 <= i < 64 => a[i] || b[i])
  }

  function And(a: Word, b: Word): (w: Word) {
    seq(64, i requires 0 <= i < 64 => a[i] && b[i])
  }

  lemma TestBit(a: Word, k: nat)
    requires k < 64
    ensures And(a, Single(k)) != Zero <==> a[k]
  {
    if a[k] {
      assert And(a, Single(k))[k];
    } else {
      assert And(a, Single(k)) == Zero;
    }
  }
}

/**
 `select`: three bit sets of descriptors in, three bit sets out.

 The kernel walks the requests word by word with three stepped pointers, skips
 words without a request, stops in the middle of the last word and ORs results
 into fresh words.  All of that is proved to be one set comprehension per set.
 */
module Select {
  import opened Words

  const FD_SETSIZE: nat := 1024
  const BITS_PER_USIZE: nat := 64
  const FD_SETSIZE_USIZES: nat := 16

  /** What polling one descriptor yields at one moment. */
  datatype PollState = PollErr | PollOk(readable: bool, writable: bool)

  type Snapshot = nat -> PollState

  /** The descriptors named by a bit set. */
  function Members(ws: seq<Word>): (s: set<nat>) {
    set fd: nat | fd < BITS_PER_USIZE * |ws| && ws[fd / BITS_PER_USIZE][fd % BITS_PER_USIZE]
  }

  predicate Readable(snap: Snapshot, fd: nat) {
    snap(fd).PollOk? && snap(fd).readable
  }

  predicate Writable(snap: Snapshot, fd: nat) {
    snap(fd).PollOk? && snap(fd).writable
  }

  predicate Erroring(snap: Snapshot, fd: nat) {
    snap(fd).PollErr?
  }

  datatype Kind = ForRead | ForWrite | ForError

  predicate Holds(kind: Kind, snap: Snapshot, fd: nat) {
    match kind
    case ForRead => Readable(snap, fd)
    case ForWrite => Writable(snap, fd)
    case ForError => Erroring(snap, fd)
  }

  /** The simple meaning of `select` for one set. */
  function Ready(kind: Kind, request: set<nat>, limit: nat, snap: Snapshot): (s: set<nat>) {
    set fd | fd in request && fd < limit && Holds(kind, snap, fd)
  }

  // -------------------------------------------------------------------- bits

  /** Bit `j` of the word that starts at `i`. */
  lemma BitPlace(i: nat, j: nat)
    requires i % BITS_PER_USIZE == 0 && j < BITS_PER_USIZE
    ensures (i + j) / BITS_PER_USIZE == i / BITS_PER_USIZE && (i + j) % BITS_PER_USIZE == j
  {
  }

  lemma SetMember(ws: seq<Word>, fd: nat)
    requires fd < BITS_PER_USIZE * |ws|
    ensures
      var i := fd / BITS_PER_USIZE;
      Members(ws[i := Or(ws[i], Single(fd % BITS_PER_USIZE))]) == Members(ws) + {fd}
  {
    var i := fd / BITS_PER_USIZE;
    var ws' := ws[i := Or(ws[i], Single(fd % BITS_PER_USIZE))];
    forall x: nat | x < BITS_PER_USIZE * |ws| ensures x in Members(ws') <==> x in Members(ws) + {fd} {
      if x / BITS_PER_USIZE == i {
        assert x % BITS_PER_USIZE == fd % BITS_PER_USIZE <==> x == fd;
      }
    }
  }

  lemma NoMembers(ws: seq<Word>)
    requires forall i :: 0 <= i < |ws| ==> ws[i] == Zero
    ensures Members(ws) == {}
  {
  }

  lemma ReadyStep(kind: Kind, request: set<nat>, limit: nat, snap: Snapshot)
    ensures Ready(kind, request, limit + 1, snap)
         == Ready(kind, request, limit, snap) + if limit in request && Holds(kind, snap, limit) then {limit} else {}
  {
  }

  lemma ReadySkip(kind: Kind, request: set<nat>, lo: nat, hi: nat, snap: Snapshot)
    requires lo <= hi && forall fd :: lo <= fd < hi ==> fd !in request
    ensures Ready(kind, request, hi, snap) == Ready(kind, request, lo, snap)
  {
  }

  // ------------------------------------------------------------------- FdSets

  /** A result with `1 << (fd % 64)` ORed into word `fd / 64`. */
  function Marked(result: seq<Word>, fd: nat): (r: seq<Word>)
    requires fd < BITS_PER_USIZE * |result|
    ensures |r| == |result| && Members(r) == Members(result) + {fd}
  {
    SetMember(result, fd);
    var i := fd / BITS_PER_USIZE;
    result[i := Or(result[i], Single(fd % BITS_PER_USIZE))]
  }

  /** The row at `base` starts with the user's first `words` words; a null set is
      all zeros. */
  ghost predicate HasRow(bits: seq<Word>, base: nat, words: nat, src: seq<Word>) {
    && base + words <= |bits| && (src == [] || words <= |src|)
    && forall i: nat :: base <= i < base + words ==> bits[i] == if src == [] then Zero else src[i - base]
  }

  ghost predicate SameOutside(a: seq<Word>, b: seq<Word>, base: nat) {
    && |a| == |b|
    && forall i: nat :: i < |a| && !(base <= i < base + FD_SETSIZE_USIZES) ==> b[i] == a[i]
  }

  lemma RowKept(a: seq<Word>, b: seq<Word>, base: nat, words: nat, src: seq<Word>, other: nat)
    requires HasRow(a, base, words, src) && SameOutside(a, b, other) && words <= FD_SETSIZE_USIZES
    requires base + FD_SETSIZE_USIZES <= other || other + FD_SETSIZE_USIZES <= base
    ensures HasRow(b, base, words, src)
  {
  }

  /** The closure that copies one user set; a null set leaves zeros. */
  method CopyFdSet(bits: array<Word>, base: nat, words: nat, src: seq<Word>)
    requires base + FD_SETSIZE_USIZES <= bits.Length && words <= FD_SETSIZE_USIZES
    requires src == [] || |src| == FD_SETSIZE_USIZES
    modifies bits
    ensures HasRow(bits[..], base, words, src) && SameOutside(old(bits[..]), bits[..], base)
    ensures src != [] ==> forall i :: base + words <= i < base + FD_SETSIZE_USIZES ==> bits[i] == old(bits[i])
    ensures src == [] ==> forall i :: base <= i < base + FD_SETSIZE_USIZES ==> bits[i] == Zero
  {
    var hi := if src == [] then FD_SETSIZE_USIZES else words;
    for i := 0 to hi
      invariant forall j :: 0 <= j < bits.Length && !(base <= j < base + i) ==> bits[j] == old(bits[j])
      invariant forall j :: base <= j < base + i ==> bits[j] == if src == [] then Zero else src[j - base]
    {
      bits[base + i] := if src == [] then Zero else src[i];
    }
  }

  /** The three requests, as sets. */
  datatype Request = Request(r: set<nat>, w: set<nat>, e: set<nat>) {
    ghost predicate Lacks(fd: nat) {
      fd !in r && fd !in w && fd !in e
    }
  }

  /** The three result arrays and the running count. */
  datatype Results = Results(r: seq<Word>, w: seq<Word>, e: seq<Word>, num: nat) {
    ghost predicate Sized() {
      |r| == |w| == |e| == FD_SETSIZE_USIZES
    }

    /** They hold exactly what is ready below `limit`. */
    ghost predicate Cover(q: Request, limit: nat, snap: Snapshot) {
      && Sized()
      && Members(r) == Ready(ForRead, q.r, limit, snap)
      && Members(w) == Ready(ForWrite, q.w, limit, snap)
      && Members(e) == Ready(ForError, q.e, limit, snap)
      && num == |Members(r)| + |Members(w)| + |Members(e)|
    }
  }

  lemma CoverSkip(res: Results, q: Request, lo: nat, hi: nat, snap: Snapshot)
    requires res.Cover(q, lo, snap) && lo <= hi
    requires forall fd: nat :: lo <= fd < hi ==> q.Lacks(fd)
    ensures res.Cover(q, hi, snap)
  {
    forall fd: nat | lo <= fd < hi ensures fd !in q.r && fd !in q.w && fd !in q.e {
      assert q.Lacks(fd);
    }
    ReadySkip(ForRead, q.r, lo, hi, snap);
    ReadySkip(ForWrite, q.w, lo, hi, snap);
    ReadySkip(ForError, q.e, lo, hi, snap);
  }

  function MarkIf(ws: seq<Word>, fd: nat, c: bool): (r: seq<Word>)
    requires fd < BITS_PER_USIZE * |ws|
  {
    if c then Marked(ws, fd) else ws
  }

  function One(c: bool): nat {
    if c then 1 else 0
  }

  /** One set after looking at one more descriptor. */
  lemma MarkIfReady(kind: Kind, ws: seq<Word>, request: set<nat>, fd: nat, snap: Snapshot, c: bool)
    requires fd < BITS_PER_USIZE * |ws| && c == (fd in request && Holds(kind, snap, fd))
    requires Members(ws) == Ready(kind, request, fd, snap)
    ensures |MarkIf(ws, fd, c)| == |ws|
    ensures Members(MarkIf(ws, fd, c)) == Ready(kind, request, fd + 1, snap)
    ensures |Ready(kind, request, fd + 1, snap)| == |Ready(kind, request, fd, snap)| + One(c)
  {
    ReadyStep(kind, request, fd, snap);
    assert fd !in Ready(kind, request, fd, snap);
  }

  /** Polling one requested descriptor. */
  method PollFd(res0: Results, fd: nat, wantRead: bool, wantWrite: bool, wantExcept: bool,
                snap: Snapshot, ghost q: Request)
    returns (res: Results)
    requires fd < FD_SETSIZE && res0.Cover(q, fd, snap)
    requires wantRead == (fd in q.r) && wantWrite == (fd in q.w) && wantExcept == (fd in q.e)
    ensures res.Cover(q, fd + 1, snap)
  {
    var onRead, onWrite, onExcept := false, false, false;
    match snap(fd) {
      case PollOk(readable, writable) =>
        onRead, onWrite := readable && wantRead, writable && wantWrite;
      case PollErr =>
        onExcept := wantExcept;
    }
    MarkIfReady(ForRead, res0.r, q.r, fd, snap, onRead);
    MarkIfReady(ForWrite, res0.w, q.w, fd, snap, onWrite);
    MarkIfReady(ForError, res0.e, q.e, fd, snap, onExcept);
    res := Results(MarkIf(res0.r, fd, onRead), MarkIf(res0.w, fd, onWrite), MarkIf(res0.e, fd, onExcept),
                   res0.num + One(onRead) + One(onWrite) + One(onExcept));
  }

  /** The saved request of one call. */
  datatype FdSets = FdSets(nfds: nat, bits: seq<Word>) {

    ghost predicate Valid()
    {
      nfds <= FD_SETSIZE && |bits| == 3 * FD_SETSIZE_USIZES
    }

    ghost function Row(k: nat): (s: set<nat>)
      requires Valid() && k < 3
    {
      Members(bits[k * FD_SETSIZE_USIZES..(k + 1) * FD_SETSIZE_USIZES])
    }

    ghost function Requests(): (q: Request)
      requires Valid()
    {
      Request(Row(0), Row(1), Row(2))
    }

    lemma RowBit(k: nat, fd: nat)
      requires Valid() && k < 3 && fd < FD_SETSIZE
      ensures fd in Row(k) <==> bits[k * FD_SETSIZE_USIZES + fd / BITS_PER_USIZE][fd % BITS_PER_USIZE]
    {
      var row := bits[k * FD_SETSIZE_USIZES..(k + 1) * FD_SETSIZE_USIZES];
      assert row[fd / BITS_PER_USIZE] == bits[k * FD_SETSIZE_USIZES + fd / BITS_PER_USIZE];
    }

    /** Copies the words that `nfds` reaches into; a null set is all zeros. */
    static method From(nfds: nat, sets: seq<seq<Word>>) returns (f: FdSets)
      requires |sets| == 3 && forall k :: 0 <= k < 3 ==> |sets[k]| == 0 || |sets[k]| == FD_SETSIZE_USIZES
      ensures f.Valid() && f.nfds == if nfds < FD_SETSIZE then nfds else FD_SETSIZE
      ensures forall k, fd: nat :: 0 <= k < 3 && fd < f.nfds ==> (fd in f.Row(k) <==> fd in Members(sets[k]))
    {
      var n := if nfds < FD_SETSIZE then nfds else FD_SETSIZE;
      var words := (n + BITS_PER_USIZE - 1) / BITS_PER_USIZE;
      var bits := new Word[3 * FD_SETSIZE_USIZES](_ => Zero);
      CopyFdSet(bits, 0, words, sets[0]);
      ghost var one := bits[..];
      CopyFdSet(bits, FD_SETSIZE_USIZES, words, sets[1]);
      ghost var two := bits[..];
      RowKept(one, two, 0, words, sets[0], FD_SETSIZE_USIZES);
      CopyFdSet(bits, 2 * FD_SETSIZE_USIZES, words, sets[2]);
      f := FdSets(n, bits[..]);
      RowKept(two, f.bits, 0, words, sets[0], 2 * FD_SETSIZE_USIZES);
      RowKept(two, f.bits, FD_SETSIZE_USIZES, words, sets[1], 2 * FD_SETSIZE_USIZES);
      f.RowCopied(0, words, sets[0]);
      f.RowCopied(1, words, sets[1]);
      f.RowCopied(2, words, sets[2]);
      f.ThreeRows(sets);
    }

    /** A row that has the user's words, as far as `nfds` reaches, has the user's
        descriptors there. */
    lemma RowCopied(k: nat, words: nat, src: seq<Word>)
      requires Valid() && k < 3 && words == (nfds + BITS_PER_USIZE - 1) / BITS_PER_USIZE
      requires HasRow(bits, k * FD_SETSIZE_USIZES, words, src)
      ensures RowAgrees(k, src)
    {
      forall fd: nat | fd < nfds ensures fd in Row(k) <==> fd in Members(src) {
        RowBit(k, fd);
        var i := fd / BITS_PER_USIZE;
        assert i < words;
        assert bits[k * FD_SETSIZE_USIZES + i] == if src == [] then Zero else src[i];
      }
    }

    ghost predicate RowAgrees(k: nat, src: seq<Word>)
      requires Valid() && k < 3
    {
      forall fd: nat :: fd < nfds ==> (fd in Row(k) <==> fd in Members(src))
    }

    lemma ThreeRows(sets: seq<seq<Word>>)
      requires Valid() && |sets| == 3
      requires RowAgrees(0, sets[0]) && RowAgrees(1, sets[1]) && RowAgrees(2, sets[2])
      ensures forall k, fd: nat :: 0 <= k < 3 && fd < nfds ==> (fd in Row(k) <==> fd in Members(sets[k]))
    {
      forall k, fd: nat | 0 <= k < 3 && fd < nfds ensures fd in Row(k) <==> fd in Members(sets[k]) {
        assert k == 0 || k == 1 || k == 2;
      }
    }

    lemma SkipWord(i: nat, hi: nat)
      requires Valid() && i <= hi <= i + BITS_PER_USIZE && hi <= nfds && i % BITS_PER_USIZE == 0 && i < nfds
      requires
        var w := i / BITS_PER_USIZE;
        Or(Or(bits[w], bits[FD_SETSIZE_USIZES + w]), bits[2 * FD_SETSIZE_USIZES + w]) == Zero
      ensures forall fd: nat :: i <= fd < hi ==> Requests().Lacks(fd)
    {
      var w := i / BITS_PER_USIZE;
      var all := Or(Or(bits[w], bits[FD_SETSIZE_USIZES + w]), bits[2 * FD_SETSIZE_USIZES + w]);
      forall fd: nat | i <= fd < hi ensures Requests().Lacks(fd) {
        assert fd / BITS_PER_USIZE == w;
        assert !all[fd % BITS_PER_USIZE];
        RowBit(0, fd);
        RowBit(1, fd);
        RowBit(2, fd);
      }
    }

    /** The bit test of the inner loop asks for membership in a request. */
    lemma Wanted(k: nat, i: nat, j: nat)
      requires Valid() && k < 3 && i % BITS_PER_USIZE == 0 && j < BITS_PER_USIZE && i + j < nfds
      ensures And(bits[k * FD_SETSIZE_USIZES + i / BITS_PER_USIZE], Single(j)) != Zero <==> i + j in Row(k)
    {
      TestBit(bits[k * FD_SETSIZE_USIZES + i / BITS_PER_USIZE], j);
      BitPlace(i, j);
      RowBit(k, i + j);
    }

    lemma AnyWanted(r: Word, w: Word, e: Word, j: nat)
      requires j < BITS_PER_USIZE
      ensures And(Or(Or(r, w), e), Single(j)) == Zero <==>
        And(r, Single(j)) == Zero && And(w, Single(j)) == Zero && And(e, Single(j)) == Zero
    {
      TestBit(r, j);
      TestBit(w, j);
      TestBit(e, j);
      TestBit(Or(Or(r, w), e), j);
    }

    /** The three words at `i` and whether any of them asks for bit `j`. */
    method TestWords(i: nat, j: nat) returns (r: bool, w: bool, e: bool, any: bool)
      requires Valid() && i % BITS_PER_USIZE == 0 && j < BITS_PER_USIZE && i + j < nfds
      ensures r <==> i + j in Row(0)
      ensures w <==> i + j in Row(1)
      ensures e <==> i + j in Row(2)
      ensures any <==> r || w || e
    {
      var k, bit := i / BITS_PER_USIZE, Single(j);
      var readBits, writeBits, exceptBits :=
        bits[k], bits[FD_SETSIZE_USIZES + k], bits[2 * FD_SETSIZE_USIZES + k];
      Wanted(0, i, j);
      Wanted(1, i, j);
      Wanted(2, i, j);
      AnyWanted(readBits, writeBits, exceptBits, j);
      any := And(Or(Or(readBits, writeBits), exceptBits), bit) != Zero;
      r, w, e := And(readBits, bit) != Zero, And(writeBits, bit) != Zero, And(exceptBits, bit) != Zero;
    }

    /** The body of the inner loop, for bit `j` of the word that starts at `i`. */
    method PollBit(res0: Results, i: nat, j: nat, snap: Snapshot) returns (res: Results)
      requires Valid() && i % BITS_PER_USIZE == 0 && j < BITS_PER_USIZE && i + j < nfds
      requires res0.Cover(Requests(), i + j, snap)
      ensures res.Cover(Requests(), i + j + 1, snap)
    {
      var r, w, e, any := TestWords(i, j);
      if !any {
        res := res0;
        CoverSkip(res, Requests(), i + j, i + j + 1, snap);
      } else {
        res := PollFd(res0, i + j, r, w, e, snap, Requests());
      }
    }

    /** The inner loop over the bits of the word that starts at `i`. */
    method PollWord(res0: Results, i: nat, snap: Snapshot) returns (res: Results)
      requires Valid() && i < nfds && i % BITS_PER_USIZE == 0
      requires res0.Cover(Requests(), i, snap)
      ensures res.Cover(Requests(), if i + BITS_PER_USIZE < nfds then i + BITS_PER_USIZE else nfds, snap)
    {
      res := res0;
      var j := 0;
      while j < BITS_PER_USIZE && i + j < nfds
        invariant 0 <= j <= BITS_PER_USIZE && i + j <= nfds
        invariant res.Cover(Requests(), i + j, snap)
      {
        res := PollBit(res, i, j, snap);
        j := j + 1;
      }
    }

    /** One round over all descriptors below `nfds`: three result sets and how
        many bits they hold. */
    method PollAll(snap: Snapshot) returns (res: Results)
      requires Valid()
      ensures res.Cover(Requests(), nfds, snap)
    {
      var zeros := seq(FD_SETSIZE_USIZES, _ => Zero);
      res := Results(zeros, zeros, zeros, 0);
      NoMembers(zeros);
      ghost var q := Requests();
      var readPtr, writePtr, exceptPtr := 0, FD_SETSIZE_USIZES, 2 * FD_SETSIZE_USIZES;
      var i := 0;
      while i < nfds
        invariant i == readPtr * BITS_PER_USIZE && readPtr <= FD_SETSIZE_USIZES
        invariant writePtr == FD_SETSIZE_USIZES + readPtr && exceptPtr == 2 * FD_SETSIZE_USIZES + readPtr
        invariant res.Cover(q, if i < nfds then i else nfds, snap)
        decreases nfds - i
      {
        var readBits, writeBits, exceptBits := bits[readPtr], bits[writePtr], bits[exceptPtr];
        readPtr, writePtr, exceptPtr := readPtr + 1, writePtr + 1, exceptPtr + 1;
        if Or(Or(readBits, writeBits), exceptBits) == Zero {
          ghost var hi := if i + BITS_PER_USIZE < nfds then i + BITS_PER_USIZE else nfds;
          SkipWord(i, hi);
          CoverSkip(res, q, i, hi, snap);
        } else {
          res := PollWord(res, i, snap);
        }
        i := i + BITS_PER_USIZE;
      }
    }
  }
}
