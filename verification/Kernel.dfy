/**
 * The operating system as the program sees it: a table of open descriptors and
 * calls with arbitrary answers. Everything observable goes into a trace.
 */
module Kernel {
  import opened Bytes
  import opened Frame
  import opened Options

  const NO_FD := -1

  datatype Event =
    | Opened(fd: int)
    | Dialed(fd: int, host: string, port: string)
    | Closed(fd: int)
    | HalfClosed(fd: int)
    | Sent(fd: int, msg: Msg)
    | Received(fd: int, msg: Msg)
    | Wrote(fd: int, bytes: seq<byte>)
    | Read(fd: int, bytes: seq<byte>)
    | ReadEnd(fd: int)
    | FrameIn(fd: int, frame: seq<byte>)
    | FrameOut(fd: int, frame: seq<byte>)
    | FrameRefused(fd: int, frame: seq<byte>)
    | Heard(fd: int, text: string)
    // Calls that failed.
    | Unsent(fd: int, msg: Msg)
    | Unheard(fd: int)
    | FrameMissed(fd: int)
    | Unattached(fd: int)
    | Unreachable(host: string, port: string)
    | NotOpened
    | WaitFailed
    | Exhausted

  /** The descriptors open after a trace that began with those of base. */
  function OpenAfter(base: set<int>, trace: seq<Event>): set<int> {
    if trace == [] then base
    else
      var before := OpenAfter(base, trace[..|trace| - 1]);
      match trace[|trace| - 1]
      case Opened(fd) => before + {fd}
      case Closed(fd) => before - {fd}
      case _ => before
  }

  /** Only descriptors not in use are handed out; only open ones are used, and closed only once. */
  ghost predicate Disciplined(base: set<int>, trace: seq<Event>) {
    trace == []
    || (var before := trace[..|trace| - 1];
        var last := trace[|trace| - 1];
        && Disciplined(base, before)
        && Permitted(last, OpenAfter(base, before)))
  }

  predicate Permitted(e: Event, open: set<int>) {
    match e
    case Opened(fd) => fd >= 0 && fd !in open
    case Unreachable(_, _) => true
    case NotOpened => true
    case WaitFailed => true
    case Exhausted => true
    case _ => e.fd in open
  }

  datatype Selected = Broken | Interrupted | TimedOut | Ready(fds: set<int>)

  /**
   * Every run is finite: after arbitrarily many rounds (ticks) select reports a
   * failure. Every finite part of an endless run is a part of such a run.
   */
  class Os {
    var open: set<int>
    var ticks: nat
    ghost var trace: seq<Event>
    ghost const base: set<int>

    ghost predicate Valid()
      reads this
    {
      open == OpenAfter(base, trace) && Disciplined(base, trace)
    }

    constructor (open: set<int>, ticks: nat)
      ensures Valid() && this.open == open && this.ticks == ticks && base == open && trace == []
    {
      this.open, this.ticks := open, ticks;
      this.base, this.trace := open, [];
    }

    ghost method Note(e: Event)
      requires Valid()
      requires Permitted(e, open)
      modifies this`trace
      ensures trace == old(trace) + [e]
      ensures Disciplined(base, trace)
      ensures OpenAfter(base, trace)
        == if e.Opened? then open + {e.fd} else if e.Closed? then open - {e.fd} else open
    {
      trace := trace + [e];
      assert trace[..|trace| - 1] == old(trace);
    }

    /** The random number generator, which may fail. */
    method Randomise() returns (ok: bool)
      requires Valid()
      modifies this`trace
      ensures Valid() && trace == if ok then old(trace) else old(trace) + [Exhausted]
    {
      ok := *;
      if !ok {
        NoteExhausted();
      }
    }

    /** An allocation has failed. */
    ghost method NoteExhausted()
      requires Valid()
      modifies this`trace
      ensures Valid() && trace == old(trace) + [Exhausted]
    {
      Note(Exhausted);
    }

    /** What the allocator answers to so many requests. */
    method Answers(n: nat) returns (memory: seq<bool>)
      ensures |memory| == n
    {
      memory := *;
      if |memory| > n {
        memory := memory[..n];
      } else {
        memory := memory + seq(n - |memory|, _ => true);
      }
    }

    /** socket, bind and listen, accept, or opening the TAP device: a new descriptor or none. */
    method Allocate() returns (fd: int)
      requires Valid()
      modifies this`open, this`trace
      ensures Valid()
      ensures fd == NO_FD ==> open == old(open) && trace == old(trace) + [NotOpened]
      ensures fd != NO_FD ==> fd >= 0 && fd !in old(open) && open == old(open) + {fd} && trace == old(trace) + [Opened(fd)]
    {
      var ok: bool := *;
      if !ok {
        Note(NotOpened);
        return NO_FD;
      }
      SomeFdIsFree(open);
      fd :| fd >= 0 && fd !in open;
      Note(Opened(fd));
      open := open + {fd};
    }

    /** Name resolution, socket and connect: a new descriptor connected to the host and port, or none. */
    method Connect(host: string, port: string) returns (fd: int)
      requires Valid()
      modifies this`open, this`trace
      ensures Valid()
      ensures fd == NO_FD ==> open == old(open) && trace == old(trace) + [Unreachable(host, port)]
      ensures fd != NO_FD ==> fd >= 0 && fd !in old(open) && open == old(open) + {fd}
      ensures fd != NO_FD ==> trace == old(trace) + [Opened(fd), Dialed(fd, host, port)]
    {
      var ok: bool := *;
      if !ok {
        Note(Unreachable(host, port));
        return NO_FD;
      }
      SomeFdIsFree(open);
      fd :| fd >= 0 && fd !in open;
      Note(Opened(fd));
      open := open + {fd};
      Note(Dialed(fd, host, port));
      assert trace == old(trace) + ([Opened(fd)] + [Dialed(fd, host, port)]);
    }

    method Attach(fd: int) returns (ok: bool)
      requires Valid() && fd in open
      modifies this`trace
      ensures Valid() && trace == if ok then old(trace) else old(trace) + [Unattached(fd)]
    {
      ok := *;
      if !ok {
        Note(Unattached(fd));
      }
    }

    method Close(fd: int)
      requires Valid() && fd in open
      modifies this`open, this`trace
      ensures Valid() && open == old(open) - {fd} && trace == old(trace) + [Closed(fd)]
    {
      Note(Closed(fd));
      open := open - {fd};
    }

    method ShutdownSend(fd: int)
      requires Valid() && fd in open
      modifies this`trace
      ensures Valid() && trace == old(trace) + [HalfClosed(fd)]
    {
      Note(HalfClosed(fd));
    }

    method Select(watch: set<int>) returns (r: Selected)
      requires Valid() && watch <= open
      modifies this`ticks, this`trace
      ensures Valid()
      ensures !r.Broken? ==> ticks < old(ticks)
      ensures trace == if r.Broken? then old(trace) + [WaitFailed] else old(trace)
      ensures r.Ready? ==> r.fds <= watch && r.fds != {}
    {
      var choice: int := *;
      if ticks == 0 || choice == 0 {
        Note(WaitFailed);
        return Broken;
      }
      ticks := ticks - 1;
      if choice == 1 {
        return Interrupted;
      } else if choice == 2 || watch == {} {
        return TimedOut;
      }
      var fds: set<int> := *;
      r := if fds * watch == {} then Ready(watch) else Ready(fds * watch);
    }

    /** A complete message goes out, or the call fails and the peer has at most a beginning of one. */
    method SendMsg(fd: int, m: Msg) returns (ok: bool)
      requires Valid() && fd in open && TypeIsValid(m.typ)
      modifies this`trace
      ensures Valid() && trace == old(trace) + [if ok then Sent(fd, m) else Unsent(fd, m)]
    {
      ok := *;
      Note(if ok then Sent(fd, m) else Unsent(fd, m));
    }

    /** Any message that the framing layer lets through to a buffer of cap octets. */
    method RecvMsg(fd: int, cap: nat) returns (m: Option<Msg>)
      requires Valid() && fd in open
      modifies this`trace
      ensures Valid()
      ensures m.Some? ==> Receivable(m.value, cap) && trace == old(trace) + [Received(fd, m.value)]
      ensures m.None? ==> trace == old(trace) + [Unheard(fd)]
    {
      m := *;
      if m.Some? && !Receivable(m.value, cap) {
        m := None;
      }
      Note(if m.Some? then Received(fd, m.value) else Unheard(fd));
    }

    /** All bytes are taken, or a proper beginning and the call fails. */
    method Write(fd: int, bytes: seq<byte>) returns (ok: bool)
      requires Valid() && fd in open && bytes != []
      modifies this`trace
      ensures Valid()
      ensures ok ==> trace == old(trace) + [Wrote(fd, bytes)]
      ensures !ok ==> exists k :: 0 <= k < |bytes| && trace == old(trace) + [Wrote(fd, bytes[..k])]
    {
      ok := *;
      if ok {
        Note(Wrote(fd, bytes));
      } else {
        var k: nat :| k < |bytes|;
        Note(Wrote(fd, bytes[..k]));
      }
    }

    /** Some bytes, or none at the end of the stream or on an error. */
    method Recv(fd: int, want: nat) returns (bytes: seq<byte>)
      requires Valid() && fd in open
      modifies this`trace
      ensures Valid() && |bytes| <= want
      ensures trace == old(trace) + [if bytes == [] then ReadEnd(fd) else Read(fd, bytes)]
    {
      bytes := *;
      if |bytes| > want {
        bytes := bytes[..want];
      }
      Note(if bytes == [] then ReadEnd(fd) else Read(fd, bytes));
    }

    method TapRead(fd: int, cap: nat) returns (frame: Option<seq<byte>>)
      requires Valid() && fd in open
      modifies this`trace
      ensures Valid()
      ensures frame.Some? ==> |frame.value| <= cap && trace == old(trace) + [FrameIn(fd, frame.value)]
      ensures frame.None? ==> trace == old(trace) + [FrameMissed(fd)]
    {
      frame := *;
      if frame.Some? && |frame.value| > cap {
        frame := Some(frame.value[..cap]);
      }
      Note(if frame.Some? then FrameIn(fd, frame.value) else FrameMissed(fd));
    }

    method TapWrite(fd: int, frame: seq<byte>) returns (ok: bool)
      requires Valid() && fd in open
      modifies this`trace
      ensures Valid() && trace == old(trace) + [if ok then FrameOut(fd, frame) else FrameRefused(fd, frame)]
    {
      ok := *;
      Note(if ok then FrameOut(fd, frame) else FrameRefused(fd, frame));
    }

    /** What a client sends before it falls silent, fails or closes. */
    method Hear(fd: int) returns (text: string)
      requires Valid() && fd in open
      modifies this`trace
      ensures Valid() && trace == old(trace) + [Heard(fd, text)]
    {
      text := *;
      Note(Heard(fd, text));
    }
  }

  lemma SomeFdIsFree(open: set<int>)
    ensures exists fd :: fd >= 0 && fd !in open
  {
    var bound := UpperBound(open);
    assert bound >= 0 && bound !in open;
  }

  lemma UpperBound(s: set<int>) returns (b: nat)
    ensures forall x | x in s :: x < b
  {
    b := 0;
    if x :| x in s {
      b := UpperBound(s - {x});
      assert forall y | y in s :: y == x || y in s - {x};
      b := if x < b then b else x + 1;
    }
  }

  // -------------------------------------------------------------------------
  // Pieces of traces
  // -------------------------------------------------------------------------

  ghost predicate OnlyCloses(es: seq<Event>) {
    forall i | 0 <= i < |es| :: es[i].Closed?
  }

  lemma {:induction false} NoneClosed(trace: seq<Event>)
    ensures OnlyCloses([]) && trace == trace + []
  {
  }

  lemma {:induction false} OneMoreClosed(before: seq<Event>, closings: seq<Event>, fd: int)
    requires OnlyCloses(closings)
    ensures OnlyCloses(closings + [Closed(fd)])
    ensures before + closings + [Closed(fd)] == before + (closings + [Closed(fd)])
  {
  }

  lemma {:induction false} Regrouped(start: seq<Event>, trace: seq<Event>, pending: seq<Event>, more: seq<Event>)
    ensures start + trace + pending + more == start + (trace + (pending + more))
    ensures start + trace + pending + more == start + trace + (pending + more)
    ensures start + trace == start + trace + []
  {
  }

  lemma {:induction false} Surrounded(before: seq<Event>, a: seq<Event>, b: seq<Event>, c: seq<Event>, d: seq<Event>)
    ensures before + a + b + c + d == before + (a + b + c + d)
  {
  }

  function Times(es: seq<Event>, e: Event): nat {
    if es == [] then 0 else Times(es[..|es| - 1], e) + if es[|es| - 1] == e then 1 else 0
  }

  /** As many openings as closings of every descriptor. */
  ghost predicate Balanced(es: seq<Event>) {
    forall fd :: Times(es, Opened(fd)) == Times(es, Closed(fd))
  }

  lemma {:induction false} TimesConcat(a: seq<Event>, b: seq<Event>, e: Event)
    ensures Times(a + b, e) == Times(a, e) + Times(b, e)
  {
    if b == [] {
      assert a + b == a;
    } else {
      TimesConcat(a, b[..|b| - 1], e);
      assert (a + b)[..|a + b| - 1] == a + b[..|b| - 1];
    }
  }

  lemma {:induction false} DisciplinedPart(base: set<int>, before: seq<Event>, part: seq<Event>)
    requires Disciplined(base, before + part)
    ensures Disciplined(base, before)
    decreases |part|
  {
    if part == [] {
      assert before + part == before;
    } else {
      assert (before + part)[..|before + part| - 1] == before + part[..|part| - 1];
      DisciplinedPart(base, before, part[..|part| - 1]);
    }
  }

  /** A descriptor has been opened once more than closed exactly while it is open. */
  lemma {:induction false} OpenMeansOnceMore(base: set<int>, trace: seq<Event>, fd: int)
    requires Disciplined(base, trace)
    ensures Times(trace, Opened(fd)) + (if fd in base then 1 else 0)
      == Times(trace, Closed(fd)) + if fd in OpenAfter(base, trace) then 1 else 0
  {
    if trace != [] {
      OpenMeansOnceMore(base, trace[..|trace| - 1], fd);
    }
  }

  /** If the same descriptors are open before and after, everything opened in between was closed, once. */
  lemma {:induction false} NothingLeftOpen(base: set<int>, before: seq<Event>, part: seq<Event>)
    requires Disciplined(base, before + part)
    requires OpenAfter(base, before + part) == OpenAfter(base, before)
    ensures Balanced(part)
  {
    hide OpenAfter, Disciplined;
    DisciplinedPart(base, before, part);
    forall fd
      ensures Times(part, Opened(fd)) == Times(part, Closed(fd))
    {
      OpenMeansOnceMore(base, before, fd);
      OpenMeansOnceMore(base, before + part, fd);
      TimesConcat(before, part, Opened(fd));
      TimesConcat(before, part, Closed(fd));
    }
  }
}
