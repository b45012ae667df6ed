/**
 The user C library's integer printing and parsing, and its `memset`.

 C integers are written out: `long long` and `uint64_t` are 64 bits wide, `int`
 is 32, and negating or converting wraps as on every supported target.
 */
module CLib {
  import opened Common

  const INT_MIN: int := -0x8000_0000
  const INT_MAX: int := 0x7fff_ffff
  const LL_MIN: int := -0x8000_0000_0000_0000
  const LL_MAX: int := 0x7fff_ffff_ffff_ffff
  const TWO_64: int := 0x1_0000_0000_0000_0000
  const BUF_SIZE: nat := 20

  const DIGITS: string := "0123456789abcdef"

  function Pow(b: nat, e: nat): nat {
    if e == 0 then 1 else b * Pow(b, e - 1)
  }

  /** What a digit is worth; only used on characters that are digits. */
  function DigitValue(c: char): nat {
    if '0' <= c <= '9' then (c - '0') as nat
    else if 'a' <= c <= 'f' then (c - 'a') as nat + 10
    else 0
  }

  /** The number a string of digits stands for, most significant first. */
  function Value(s: string, base: nat): nat {
    if s == [] then 0 else Value(s[..|s| - 1], base) * base + DigitValue(s[|s| - 1])
  }

  lemma Shrinks(x: nat, base: nat)
    requires x >= base >= 2
    ensures 0 < x / base < x && x == (x / base) * base + x % base
  {
    var q, r := x / base, x % base;
    assert x == q * base + r && 0 <= r < base;
    assert q > 0;
    assert q * (base - 2) >= 0;
  }

  /** A number without its last digit. */
  function Front(x: nat, base: nat): (q: nat)
    requires base >= 2
    ensures x >= base <==> q > 0
    ensures x >= base ==> q < x
  {
    if x >= base then
      Shrinks(x, base);
      x / base
    else 0
  }

  /** The shortest numeral of a number. */
  function Numeral(x: nat, base: nat): (s: string)
    requires 2 <= base <= 16
    ensures s != []
    decreases x
  {
    if x < base then [DIGITS[x]] else Numeral(Front(x, base), base) + [DIGITS[x % base]]
  }

  lemma DigitRoundTrip(d: nat)
    requires d < 16
    ensures DigitValue(DIGITS[d]) == d && (d < 10 ==> '0' <= DIGITS[d] <= '9') && DIGITS[d] != '-'
  {
  }

  /** A numeral stands for its number. */
  lemma {:induction false} NumeralValue(x: nat, base: nat)
    requires 2 <= base <= 16
    ensures Value(Numeral(x, base), base) == x
    decreases x
  {
    var s := Numeral(x, base);
    if x < base {
      DigitRoundTrip(x);
      assert s[..|s| - 1] == [];
    } else {
      Shrinks(x, base);
      NumeralValue(x / base, base);
      DigitRoundTrip(x % base);
      assert s[..|s| - 1] == Numeral(Front(x, base), base);
    }
  }

  /** No leading zero, but for zero itself. */
  lemma {:induction false} NumeralIsShort(x: nat, base: nat)
    requires 2 <= base <= 16
    ensures Numeral(x, base)[0] == '0' <==> x == 0
    decreases x
  {
    if x < base {
      DigitRoundTrip(x);
    } else {
      Shrinks(x, base);
      NumeralIsShort(x / base, base);
    }
  }

  lemma DivBelow(x: nat, base: nat, p: nat)
    requires base >= 2 && x >= base && x < base * p
    ensures x / base < p
  {
    Shrinks(x, base);
    var q := x / base;
    assert q * base < p * base;
    assert q < p by {
      assert q >= p ==> (q - p) * base >= 0;
    }
  }

  /** A number below base to the n has at most n digits. */
  lemma {:induction false} NumeralLength(x: nat, base: nat, n: nat)
    requires 2 <= base <= 16 && n > 0 && x < Pow(base, n)
    ensures |Numeral(x, base)| <= n
    decreases n
  {
    if x >= base {
      Shrinks(x, base);
      assert n > 1 by {
        assert Pow(base, 1) == base * Pow(base, 0);
      }
      DivBelow(x, base, Pow(base, n - 1));
      NumeralLength(x / base, base, n - 1);
    }
  }

  lemma ProductGrows(a: nat, b: nat, x: nat, y: nat)
    requires a <= b && x <= y
    ensures a * x <= b * y
  {
    assert a * (y - x) >= 0;
    assert (b - a) * y >= 0;
  }

  lemma {:induction false} PowGrows(a: nat, b: nat, n: nat)
    requires a <= b
    ensures Pow(a, n) <= Pow(b, n)
  {
    if n > 0 {
      PowGrows(a, b, n - 1);
      ProductGrows(a, b, Pow(a, n - 1), Pow(b, n - 1));
    }
  }

  lemma TenToThe19()
    ensures Pow(10, 19) == 10_000_000_000_000_000_000
  {
    assert Pow(10, 4) == 10_000;
    assert Pow(10, 8) == 100_000_000;
    assert Pow(10, 12) == 1_000_000_000_000;
    assert Pow(10, 16) == 10_000_000_000_000_000;
  }

  /** Sixty-four bits never need more than the twenty characters of the buffer, and
      with the sign bit gone, nineteen. */
  lemma FitsTheBuffer(x: nat, base: nat)
    requires 10 <= base <= 16
    ensures x < TWO_64 ==> |Numeral(x, base)| <= BUF_SIZE
    ensures x <= -LL_MIN ==> |Numeral(x, base)| <= BUF_SIZE - 1
  {
    PowGrows(10, base, 20);
    PowGrows(10, base, 19);
    TenToThe19();
    assert Pow(10, 20) == 10 * Pow(10, 19);
    if x < TWO_64 {
      NumeralLength(x, base, 20);
    }
    if x <= -LL_MIN {
      NumeralLength(x, base, 19);
    }
  }

  /** Conversion of a `long long` to `uint64_t`, and negation that wraps. */
  function ToU64(v: int): int {
    if v < 0 then v + TWO_64 else v
  }

  function Neg64(v: int): int {
    if v == LL_MIN then v else -v
  }

  /** What `printint` prints. */
  function Printed(value: int, base: nat, sign: bool): string
    requires 2 <= base <= 16 && LL_MIN <= value <= LL_MAX
  {
    if sign && value < 0 then "-" + Numeral(-value, base) else Numeral(ToU64(value), base)
  }

  /** The last digit, and the numeral of what is left before it. */
  lemma NumeralStep(x: nat, base: nat)
    requires 2 <= base <= 16
    ensures x / base == Front(x, base)
    ensures Numeral(x, base) == (if Front(x, base) == 0 then [] else Numeral(Front(x, base), base)) + [DIGITS[x % base]]
  {
    if x < base {
      assert x / base == 0 && x % base == x;
    }
  }

  method StoreDigit(buf: array<char>, i: nat, end: nat, c: char) returns (i': nat)
    requires 0 < i <= end <= buf.Length
    modifies buf
    ensures i' == i - 1 && buf[i'..end] == [c] + old(buf[i..end])
  {
    i' := i - 1;
    buf[i'] := c;
  }

  /** The digit loop, filling `buf` from `end` backwards; the caller has seen to it
      that the numeral fits. */
  method FillDigits(buf: array<char>, end: nat, value: nat, base: nat) returns (i: nat)
    requires 2 <= base <= 16 && |Numeral(value, base)| <= end <= buf.Length
    modifies buf
    ensures i == end - |Numeral(value, base)|
    ensures buf[i..end] == Numeral(value, base)
  {
    var x: nat := value;
    var more := true;
    i := end;
    ghost var front := Numeral(value, base);
    while more
      invariant 0 <= i <= end
      invariant more ==> front == Numeral(x, base)
      invariant !more ==> front == []
      invariant front + buf[i..end] == Numeral(value, base)
      decreases more, x
    {
      NumeralStep(x, base);
      i := StoreDigit(buf, i, end, DIGITS[x % base]);
      x := x / base;
      more := x != 0;
      front := front[..|front| - 1];
    }
  }

  method PrintInt(value: int, base: nat, sign: bool) returns (text: string)
    requires LL_MIN <= value <= LL_MAX && 10 <= base <= 16
    ensures text == Printed(value, base, sign)
  {
    var buf := new char[BUF_SIZE + 1](_ => '\0');
    var neg := sign && value < 0;
    var x: nat := if neg then ToU64(Neg64(value)) else ToU64(value);
    FitsTheBuffer(x, base);
    var i := FillDigits(buf, BUF_SIZE, x, base);
    if neg {
      i := i - 1;
      buf[i] := '-';
      assert buf[i..BUF_SIZE] == "-" + buf[i + 1..BUF_SIZE];
    }
    text := buf[i..BUF_SIZE];
  }

  predicate IsSpace(c: char) {
    c == ' ' || 9 <= c as int < 14
  }

  predicate IsDigit(c: char) {
    '0' <= c <= '9'
  }

  function SkipSpaces(s: string): string {
    if s != [] && IsSpace(s[0]) then SkipSpaces(s[1..]) else s
  }

  function DropSign(s: string): string {
    if s != [] && (s[0] == '-' || s[0] == '+') then s[1..] else s
  }

  function DigitRun(s: string): string {
    if s != [] && IsDigit(s[0]) then [s[0]] + DigitRun(s[1..]) else []
  }

  /** The number written at the start of a string: spaces, a sign, decimal digits. */
  function Parsed(s: string): int {
    var t := SkipSpaces(s);
    var v: int := Value(DigitRun(DropSign(t)), 10);
    if t != [] && t[0] == '-' then -v else v
  }

  lemma {:induction false} RunSplits(s: string, k: nat)
    requires k <= |s| && forall i :: 0 <= i < k ==> IsDigit(s[i])
    ensures DigitRun(s) == s[..k] + DigitRun(s[k..])
  {
    if k > 0 {
      RunSplits(s[1..], k - 1);
      assert s[1..][k - 1..] == s[k..];
      assert s[..k] == [s[0]] + s[1..][..k - 1];
    }
  }

  lemma {:induction false} PrefixValue(s: string, k: nat)
    requires k <= |s|
    ensures Value(s[..k], 10) <= Value(s, 10)
    decreases |s| - k
  {
    if k < |s| {
      PrefixValue(s, k + 1);
      assert s[..k + 1][..k] == s[..k];
    } else {
      assert s[..k] == s;
    }
  }

  /** The digit loop, with the character after the end of the string as the NUL:
      a negative accumulator, and whether it stays an `int`. */
  method AccumulateDigits(s: string) returns (n: int, fits: bool)
    ensures fits <==> INT_MIN <= 0 - Value(DigitRun(s), 10)
    ensures fits ==> n == 0 - Value(DigitRun(s), 10)
  {
    n, fits := 0, true;
    var k := 0;
    while k < |s| && IsDigit(s[k])
      invariant 0 <= k <= |s| && forall i :: 0 <= i < k ==> IsDigit(s[i])
      invariant n == 0 - Value(s[..k], 10) && INT_MIN <= n
    {
      assert s[..k + 1][..k] == s[..k];
      if 10 * n - DigitValue(s[k]) < INT_MIN {
        RunSplits(s, k + 1);
        PrefixValue(DigitRun(s), k + 1);
        assert DigitRun(s)[..k + 1] == s[..k + 1];
        return n, false;
      }
      n := 10 * n - DigitValue(s[k]);
      k := k + 1;
    }
    RunSplits(s, k);
    assert DigitRun(s) == s[..k];
  }

  /** `atoi`, and whether every step of it stays within `int`: it does whenever the
      number itself fits, the smallest one included. */
  method Atoi(s: string) returns (n: int, fits: bool)
    ensures fits <==> INT_MIN <= Parsed(s) <= INT_MAX
    ensures fits ==> n == Parsed(s)
  {
    var t := s;
    while t != [] && IsSpace(t[0])
      invariant SkipSpaces(t) == SkipSpaces(s)
      decreases |t|
    {
      t := t[1..];
    }
    var neg := false;
    var u := t;
    if u != [] && u[0] == '-' {
      neg := true;
      u := u[1..];
    } else if u != [] && u[0] == '+' {
      u := u[1..];
    }
    n, fits := AccumulateDigits(u);
    if fits && !neg {
      fits := -n <= INT_MAX;
      n := -n;
    }
  }

  lemma {:induction false} NumeralIsDigits(x: nat)
    ensures forall i :: 0 <= i < |Numeral(x, 10)| ==> IsDigit(Numeral(x, 10)[i])
    decreases x
  {
    DigitRoundTrip(x % 10);
    if x >= 10 {
      NumeralIsDigits(x / 10);
    }
  }

  lemma RunOfNumeral(x: nat)
    ensures DigitRun(Numeral(x, 10)) == Numeral(x, 10)
  {
    var s := Numeral(x, 10);
    NumeralIsDigits(x);
    RunSplits(s, |s|);
    assert s[..|s|] == s && s[|s|..] == [];
  }

  lemma PositiveParses(s: string, x: nat)
    requires s == Numeral(x, 10)
    ensures Parsed(s) == x
  {
    NumeralIsDigits(x);
    assert IsDigit(s[0]);
    assert SkipSpaces(s) == s && DropSign(s) == s;
    RunOfNumeral(x);
    NumeralValue(x, 10);
  }

  lemma NegativeParses(s: string, x: nat)
    requires s == "-" + Numeral(x, 10)
    ensures Parsed(s) == 0 - x
  {
    assert s[0] == '-' && s[1..] == Numeral(x, 10);
    assert SkipSpaces(s) == s;
    RunOfNumeral(x);
    NumeralValue(x, 10);
  }

  /** Parsing what was printed gives the number back. */
  lemma ParseUndoesPrint(value: int, s: string)
    requires LL_MIN <= value <= LL_MAX && s == Printed(value, 10, true)
    ensures Parsed(s) == value
  {
    if value < 0 {
      NegativeParses(s, -value);
    } else {
      PositiveParses(s, value);
    }
  }

  /** For every `int`: print, then parse, with neither the buffer underrun nor an
      overflow on the way. */
  method PrintThenParse(value: int) returns (n: int, fits: bool)
    requires INT_MIN <= value <= INT_MAX
    ensures fits && n == value
  {
    var text := PrintInt(value, 10, true);
    ParseUndoesPrint(value, text);
    n, fits := Atoi(text);
  }

  /** Exactly the `n` bytes from `dest` are `b`; the others are as they were. */
  ghost predicate Filled(before: seq<Byte>, after: seq<Byte>, dest: nat, n: nat, b: Byte) {
    && |after| == |before|
    && forall i :: 0 <= i < |after| ==> after[i] == if dest <= i < dest + n then b else before[i]
  }

  /** The stores at both ends cover everything up to eight bytes. */
  method FillEnds(mem: array<Byte>, dest: nat, n: nat, b: Byte)
    requires 0 < n && dest + n <= mem.Length
    modifies mem
    ensures n <= 8 ==> Filled(old(mem[..]), mem[..], dest, n, b)
    ensures n > 8 ==> forall i :: 0 <= i < mem.Length ==>
      mem[i] == if dest <= i < dest + 4 || dest + n - 4 <= i < dest + n then b else old(mem[i])
  {
    mem[dest] := b;
    mem[dest + n - 1] := b;
    if n <= 2 {
      return;
    }
    mem[dest + 1] := b;
    mem[dest + 2] := b;
    mem[dest + n - 2] := b;
    mem[dest + n - 3] := b;
    if n <= 6 {
      return;
    }
    mem[dest + 3] := b;
    mem[dest + n - 4] := b;
  }

  /** `memset` of the `n` bytes from index `dest`, whose address is `addr`.  The
      middle loop starts at the next multiple of four and does a multiple of four
      bytes, so it may miss up to three at each end. */
  method Memset(mem: array<Byte>, dest: nat, addr: nat, c: int, n: nat)
    requires dest + n <= mem.Length
    modifies mem
    ensures Filled(old(mem[..]), mem[..], dest, n, c % 256)
  {
    var b: Byte := c % 256;
    if n == 0 {
      return;
    }
    FillEnds(mem, dest, n, b);
    if n <= 8 {
      return;
    }
    var k := (4 - addr % 4) % 4;
    var s := dest + k;
    var left := n - k;
    left := left - left % 4;
    ghost var stop := s + left;
    assert dest + n - 4 < stop <= dest + n;
    while left != 0
      invariant 0 <= left && s + left == stop && dest + k <= s
      invariant forall i :: 0 <= i < mem.Length ==>
        mem[i] == if dest <= i < dest + 4 || dest + k <= i < s || dest + n - 4 <= i < dest + n then b else old(mem[i])
    {
      mem[s] := b;
      left, s := left - 1, s + 1;
    }
  }
}
