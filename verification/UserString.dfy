/**
 The search for the end of a string in user memory (`check_null_terminated`):
 each page is checked just before the first element in it is read.

 `mem(a)` is the element stored at address `a` and `pages(p)` says whether page
 `p` may be accessed; both stay as they are during the search.
 */
module UserString {

  const PAGE_SIZE: nat := 4096

  datatype ScanResult = Ok(len: nat) | EFAULT

  /** The sizes of the scalar types, whose alignment is their size.  The callers
      use one byte and one pointer. */
  predicate ScalarSize(size: nat) {
    size == 1 || size == 2 || size == 4 || size == 8 || size == 16
  }

  /** The low bits that the mask `align - 1` tests are zero. */
  predicate Aligned(addr: nat, size: nat)
    requires ScalarSize(size)
  {
    match size
    case 1 => true
    case 2 => addr % 2 == 0
    case 4 => addr % 4 == 0
    case 8 => addr % 8 == 0
    case _ => addr % 16 == 0
  }

  function PageOf(addr: nat): nat {
    addr / PAGE_SIZE
  }

  /** Address of element `i`. */
  function Elem(start: nat, size: nat, i: nat): nat {
    if i == 0 then start else Elem(start, size, i - 1) + size
  }

  /** Every page from `lo` up to, not including, `hi` may be accessed. */
  ghost predicate Accessible(pages: nat -> bool, lo: nat, hi: nat) {
    forall p: nat :: lo <= p < hi ==> pages(p)
  }

  ghost predicate NonZeroUpTo(mem: nat -> int, start: nat, size: nat, len: nat) {
    forall i: nat :: i < len ==> mem(Elem(start, size, i)) != 0
  }

  /** Element `len` is the first zero, and every page from the start of the string
      to that element may be accessed. */
  ghost predicate Readable(mem: nat -> int, pages: nat -> bool, start: nat, size: nat, len: nat) {
    && NonZeroUpTo(mem, start, size, len) && mem(Elem(start, size, len)) == 0
    && Accessible(pages, PageOf(start), PageOf(Elem(start, size, len)) + 1)
  }

  lemma {:induction false} ElemAligned(start: nat, size: nat, i: nat)
    requires ScalarSize(size) && Aligned(start, size)
    ensures Aligned(Elem(start, size, i), size)
  {
    if i > 0 {
      ElemAligned(start, size, i - 1);
      StepAligned(Elem(start, size, i - 1), size);
    }
  }

  lemma StepAligned(addr: nat, size: nat)
    requires ScalarSize(size) && Aligned(addr, size)
    ensures Aligned(addr + size, size)
  {
    match size
    case 1 =>
    case 2 =>
    case 4 =>
    case 8 =>
    case _ =>
  }

  /** An aligned element ends in the page it starts in: with k elements before it
      and `per` of them to a page, k is less than per * (p + 1). */
  lemma EndsInItsPage(addr: nat, size: nat)
    requires ScalarSize(size) && Aligned(addr, size)
    ensures PageOf(addr + size - 1) == PageOf(addr)
  {
    var p := PageOf(addr);
    assert PAGE_SIZE * p <= addr < PAGE_SIZE * (p + 1);
    assert addr + size - 1 < PAGE_SIZE * (p + 1) by {
      match size
      case 1 =>
      case 2 => LastFits(addr / 2, 2, 2048, p);
      case 4 => LastFits(addr / 4, 4, 1024, p);
      case 8 => LastFits(addr / 8, 8, 512, p);
      case _ => LastFits(addr / 16, 16, 256, p);
    }
  }

  lemma LastFits(k: nat, size: nat, per: nat, p: nat)
    requires size > 0 && per * size == PAGE_SIZE && k * size < PAGE_SIZE * (p + 1)
    ensures k * size + size - 1 < PAGE_SIZE * (p + 1)
  {
    var n := per * (p + 1);
    assert n * size == PAGE_SIZE * (p + 1) by {
      assert n * size == (per * size) * (p + 1);
    }
    assert k < n;
    assert (n - 1 - k) * size >= 0;
  }

  lemma {:induction false} ElemGrows(start: nat, size: nat, i: nat, j: nat)
    requires i <= j
    ensures Elem(start, size, i) <= Elem(start, size, j)
    decreases j
  {
    if i < j {
      ElemGrows(start, size, i, j - 1);
    }
  }

  /** With no terminator before element `len`, and a page at or before that
      element's that may not be accessed, no string is there to read. */
  lemma Unreadable(mem: nat -> int, pages: nat -> bool, start: nat, size: nat, len: nat, bad: nat)
    requires NonZeroUpTo(mem, start, size, len) && !pages(bad)
    requires PageOf(start) <= bad <= PageOf(Elem(start, size, len))
    ensures forall n: nat :: !Readable(mem, pages, start, size, n)
  {
    forall n: nat ensures !Readable(mem, pages, start, size, n) {
      if n >= len {
        ElemGrows(start, size, len, n);
      }
    }
  }

  /** A string can be read in one way only. */
  lemma ReadableOnce(mem: nat -> int, pages: nat -> bool, start: nat, size: nat, m: nat, n: nat)
    requires Readable(mem, pages, start, size, m) && Readable(mem, pages, start, size, n)
    ensures m == n
  {
    assert !(m < n) && !(n < m);
  }

  /** Reading an element: all of its bytes must be in pages that may be accessed. */
  method ReadVolatile(mem: nat -> int, pages: nat -> bool, addr: nat, size: nat) returns (v: int)
    requires size > 0 && forall p: nat :: PageOf(addr) <= p <= PageOf(addr + size - 1) ==> pages(p)
    ensures v == mem(addr)
  {
    v := mem(addr);
  }

  /** Checks pages until the one that holds `ptr` is among them. */
  method CheckPages(pages: nat -> bool, first: nat, page0: nat, ptr: nat) returns (ok: bool, page: nat)
    requires page0 % PAGE_SIZE == 0 && first <= page0 / PAGE_SIZE
    requires Accessible(pages, first, page0 / PAGE_SIZE)
    ensures page % PAGE_SIZE == 0 && first <= page / PAGE_SIZE
    ensures Accessible(pages, first, page / PAGE_SIZE)
    ensures ok ==> ptr < page
    ensures !ok ==> page <= ptr && !pages(page / PAGE_SIZE)
  {
    page := page0;
    while ptr >= page
      invariant page % PAGE_SIZE == 0 && first <= page / PAGE_SIZE
      invariant Accessible(pages, first, page / PAGE_SIZE)
    {
      if !pages(page / PAGE_SIZE) {
        return false, page;
      }
      page := page + PAGE_SIZE;
    }
    ok := true;
  }

  /** The whole search, in an address space that ends somewhere: it answers with a
      length exactly when the string is aligned and readable, and faults otherwise. */
  method CheckNullTerminated(mem: nat -> int, pages: nat -> bool, start: nat, size: nat, ghost limit: nat)
    returns (r: ScanResult)
    requires ScalarSize(size)
    requires forall p: nat :: p >= limit ==> !pages(p)
    ensures forall len: nat :: r == Ok(len) <==> Aligned(start, size) && Readable(mem, pages, start, size, len)
  {
    if !Aligned(start, size) {
      return EFAULT;
    }
    var page, ptr, len := PageOf(start) * PAGE_SIZE, start, 0;
    while true
      invariant page % PAGE_SIZE == 0 && PageOf(start) <= page / PAGE_SIZE
      invariant Accessible(pages, PageOf(start), page / PAGE_SIZE)
      invariant NonZeroUpTo(mem, start, size, len)
      invariant ptr == Elem(start, size, len) >= start
      decreases limit * PAGE_SIZE - ptr
    {
      var ok: bool;
      ok, page := CheckPages(pages, PageOf(start), page, ptr);
      if !ok {
        Unreadable(mem, pages, start, size, len, page / PAGE_SIZE);
        return EFAULT;
      }
      ElemAligned(start, size, len);
      EndsInItsPage(ptr, size);
      assert pages(PageOf(ptr)) && PageOf(ptr) < limit;
      var v := ReadVolatile(mem, pages, ptr, size);
      if v == 0 {
        forall n: nat ensures len == n <==> Readable(mem, pages, start, size, n) {
          if Readable(mem, pages, start, size, n) {
            ReadableOnce(mem, pages, start, size, len, n);
          }
        }
        return Ok(len);
      }
      len, ptr := len + 1, ptr + size;
    }
  }
}
