/**
 The line buffer behind `putchar`, `puts` and `printf` of the user C library.

 `sink` is what the kernel has taken.  A write of the buffer answers with a number
 `r`: negative for failure, else how many bytes it took.  Either way the buffer is
 cleared before the answer is looked at.
 */
module Stdio {

  const LINE_WIDTH: nat := 256

  datatype State = State(buffer: string, sink: string)

  /** A character put out, or a flush, with the answer of the write it makes, if any. */
  datatype Event = Put(c: char, r: int) | Flush(r: int)

  const Init := State([], [])

  /** The buffer as an event is about to write it. */
  function Pending(s: State, e: Event): string {
    match e
    case Put(c, _) => s.buffer + [c]
    case Flush(_) => s.buffer
  }

  predicate Writes(s: State, e: Event) {
    match e
    case Put(c, _) => |s.buffer| + 1 == LINE_WIDTH || c == '\n'
    case Flush(_) => s.buffer != []
  }

  /** A write takes no more than it is given. */
  predicate Enabled(s: State, e: Event) {
    e.r <= |Pending(s, e)|
  }

  function Apply(s: State, e: Event): State
    requires Enabled(s, e)
  {
    if !Writes(s, e) then State(Pending(s, e), s.sink)
    else State([], s.sink + if e.r < 0 then [] else Pending(s, e)[..e.r])
  }

  /** The event's write, if it makes one, was complete. */
  predicate Full(s: State, e: Event) {
    Writes(s, e) ==> e.r == |Pending(s, e)|
  }

  /** What the program has put out. */
  function PutOut(es: seq<Event>): string {
    if es == [] then []
    else PutOut(es[..|es| - 1]) + match es[|es| - 1] case Put(c, _) => [c] case Flush(_) => []
  }

  /** Events that lead from one state to another. */
  ghost predicate Steps(ss: seq<State>, es: seq<Event>, s: State, s': State) {
    && |ss| == |es| + 1 && ss[0] == s && ss[|es|] == s'
    && forall i :: 0 <= i < |es| ==> Enabled(ss[i], es[i]) && ss[i + 1] == Apply(ss[i], es[i])
  }

  lemma StepsMore(ss: seq<State>, es: seq<Event>, s: State, s1: State, e: Event)
    requires Steps(ss, es, s, s1) && Enabled(s1, e)
    ensures Steps(ss + [Apply(s1, e)], es + [e], s, Apply(s1, e))
  {
    var ss', es' := ss + [Apply(s1, e)], es + [e];
    forall i | 0 <= i < |es'| ensures Enabled(ss'[i], es'[i]) && ss'[i + 1] == Apply(ss'[i], es'[i]) {
      if i < |es| {
        assert ss'[i] == ss[i] && es'[i] == es[i] && ss'[i + 1] == ss[i + 1];
      }
    }
  }

  ghost predicate IsRun(ss: seq<State>, es: seq<Event>) {
    |ss| == |es| + 1 && Steps(ss, es, Init, ss[|es|])
  }

  /** In every state of every run there is room for one more character, and no
      complete line waits. */
  lemma {:induction false} BufferHasRoom(ss: seq<State>, es: seq<Event>, i: nat)
    requires IsRun(ss, es) && i < |ss|
    ensures |ss[i].buffer| < LINE_WIDTH && '\n' !in ss[i].buffer
  {
    if i > 0 {
      BufferHasRoom(ss, es, i - 1);
      assert ss[i] == Apply(ss[i - 1], es[i - 1]);
    }
  }

  lemma OneEvent(s: State, e: Event, done: string)
    requires Enabled(s, e) && |s.sink + s.buffer| <= |done|
    ensures
      var (s', done') := (Apply(s, e), done + match e case Put(c, _) => [c] case Flush(_) => []);
      && |s'.sink + s'.buffer| <= |done'|
      && (|s'.sink + s'.buffer| == |done'| <==> Full(s, e) && |s.sink + s.buffer| == |done|)
      && (Full(s, e) && s.sink + s.buffer == done ==> s'.sink + s'.buffer == done')
  {
    if Full(s, e) {
      assert Apply(s, e).sink + Apply(s, e).buffer == s.sink + Pending(s, e);
    }
  }

  ghost predicate AllFull(ss: seq<State>, es: seq<Event>, n: nat)
    requires n <= |es| <= |ss|
  {
    forall k :: 0 <= k < n ==> Full(ss[k], es[k])
  }

  lemma {:induction false} NeverMore(ss: seq<State>, es: seq<Event>, i: nat)
    requires IsRun(ss, es) && i < |ss|
    ensures |ss[i].sink + ss[i].buffer| <= |PutOut(es[..i])|
    ensures |ss[i].sink + ss[i].buffer| == |PutOut(es[..i])| <==> AllFull(ss, es, i)
    ensures AllFull(ss, es, i) ==> ss[i].sink + ss[i].buffer == PutOut(es[..i])
  {
    if i > 0 {
      NeverMore(ss, es, i - 1);
      assert es[..i][..i - 1] == es[..i - 1];
      assert ss[i] == Apply(ss[i - 1], es[i - 1]);
      OneEvent(ss[i - 1], es[i - 1], PutOut(es[..i - 1]));
      assert AllFull(ss, es, i) <==> AllFull(ss, es, i - 1) && Full(ss[i - 1], es[i - 1]);
    }
  }

  /** In every state of every run, what the kernel has taken and then the buffer is
      what the program has put out iff every write was complete. */
  lemma OutputIsExact(ss: seq<State>, es: seq<Event>, i: nat)
    requires IsRun(ss, es) && i < |ss|
    ensures ss[i].sink + ss[i].buffer == PutOut(es[..i]) <==> AllFull(ss, es, i)
  {
    NeverMore(ss, es, i);
  }

  /** Nothing is written before its time: a character is kept back unless it ends a
      line or is the 256th, and then the whole line goes; so does whatever is there on
      a flush.  The buffer is empty after a write. */
  lemma WritesAreExact(s: State, e: Event)
    requires Enabled(s, e)
    ensures
      var s' := Apply(s, e);
      && (e.Put? && e.c != '\n' && |s.buffer| != 255 ==> s' == State(s.buffer + [e.c], s.sink))
      && (e.Put? && (e.c == '\n' || |s.buffer| == 255) && e.r == |s.buffer| + 1 ==>
        s' == State([], s.sink + s.buffer + [e.c]))
      && (e.Flush? && e.r == |s.buffer| ==> s' == State([], s.sink + s.buffer))
      && (e.Flush? || e.c == '\n' || |s.buffer| == 255 ==> s'.buffer == [])
  {
    if e.Put? {
      assert s.sink + (s.buffer + [e.c]) == s.sink + s.buffer + [e.c];
    }
  }

  /** A short write that loses the rest of a line. */
  lemma ShortWriteLoses()
    ensures
      var s := State("h", []);
      && Enabled(s, Put('\n', 1)) && Apply(s, Put('\n', 1)) == State([], "h")
  {
    assert ("h" + ['\n'])[..1] == "h";
  }

  class Stdout {
    const buffer: array<char>
    var len: nat
    ghost var sink: string

    ghost predicate Valid()
      reads this
    {
      buffer.Length == LINE_WIDTH && len < LINE_WIDTH
    }

    ghost function View(): State
      requires Valid()
      reads this, buffer
    {
      State(buffer[..len], sink)
    }

    constructor ()
      ensures Valid() && View() == Init
    {
      buffer := new char[LINE_WIDTH](_ => '\0');
      len, sink := 0, [];
    }

    /** `__write_buffer`; the kernel decides how much it takes. */
    method WriteBuffer() returns (r: int)
      requires buffer.Length == LINE_WIDTH && len <= LINE_WIDTH
      modifies this`sink
      ensures r <= len && (len == 0 ==> r == 0)
      ensures sink == old(sink) + if r < 0 then [] else buffer[..r]
    {
      if len == 0 {
        return 0;
      }
      r :| r <= len;
      sink := sink + if r < 0 then [] else buffer[..r];
    }

    /** The body of the loop of `out`: `wrote` says whether the buffer was written. */
    method PutChar(c: char) returns (wrote: bool, r: int, ghost e: Event)
      requires Valid()
      modifies this, buffer
      ensures Valid() && e == Put(c, r) && Enabled(old(View()), e) && View() == Apply(old(View()), e)
      ensures wrote <==> Writes(old(View()), e)
      ensures !wrote ==> r == 0
      ensures |sink| == |old(sink)| + if r < 0 then 0 else r
    {
      ghost var before := buffer[..len];
      buffer[len] := c;
      len := len + 1;
      assert buffer[..len] == before + [c];
      r := 0;
      wrote := len == LINE_WIDTH || c == '\n';
      if wrote {
        r := WriteBuffer();
        assert r >= 0 ==> buffer[..r] == buffer[..len][..r];
        len := 0;
      }
      e := Put(c, r);
    }

    /** `out` to standard output: `es` are its events.  The number returned is what the
        kernel took during the call, or the failure; a short write is not noticed. */
    method Out(s: string) returns (ret: int, ghost ss: seq<State>, ghost es: seq<Event>)
      requires Valid()
      modifies this, buffer
      ensures Valid() && Steps(ss, es, old(View()), View())
      ensures PutOut(es) <= s
      ensures ret >= 0 ==> PutOut(es) == s && ret == |sink| - |old(sink)|
      ensures ret < 0 ==> es != [] && es[|es| - 1].r == ret
    {
      ret, ss, es := 0, [View()], [];
      for i := 0 to |s|
        invariant Valid() && Steps(ss, es, old(View()), View()) && PutOut(es) == s[..i]
        invariant ret >= 0 && ret == |sink| - |old(sink)|
      {
        ghost var before := View();
        var wrote, r, e := PutChar(s[i]);
        StepsMore(ss, es, old(View()), before, e);
        ss, es := ss + [View()], es + [e];
        assert es[..|es| - 1] + [e] == es && s[..i + 1] == s[..i] + [s[i]];
        if wrote {
          if r < 0 {
            return r, ss, es;
          }
          if r < len {
            return ret + r, ss, es;
          }
          ret := ret + r;
        }
      }
      assert s[..|s|] == s;
    }

    /** `__fflush`. */
    method Fflush() returns (ret: int, ghost e: Event)
      requires Valid()
      modifies this
      ensures Valid() && e.Flush? && Enabled(old(View()), e) && View() == Apply(old(View()), e)
      ensures ret == if e.r >= 0 then 0 else e.r
    {
      ghost var before := buffer[..len];
      var r := WriteBuffer();
      assert r >= 0 ==> buffer[..r] == before[..r];
      len := 0;
      e := Flush(r);
      ret := if r >= 0 then 0 else r;
    }
  }
}
