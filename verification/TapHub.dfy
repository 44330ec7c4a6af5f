/** The relay hub of TAP mode: a TAP device, the control peer and eight slots for direct clients. */
module TapHub {
  import opened Bytes
  import opened DirectAccess
  import opened Frame
  import opened HubSlots
  import opened Kernel
  import opened Options
  import opened Relay
  import opened Wire
  import opened WireCode
  import Streams

  /** The hub's local state; log is the run so far and pending are the events since its last completed action. */
  class Hub {
    const os: Os
    const s: Setup
    const clients: array<Client>
    var listenFd: int
    ghost const base: set<int>
    ghost const start: seq<Event>
    ghost var log: Log
    ghost var pending: seq<Event>

    function Listening(): set<int>
      reads this`listenFd
    {
      if listenFd == NO_FD then {} else {listenFd}
    }

    /** Every open descriptor has one owner: the caller, the device, the listener, a client, or the operation in progress. */
    ghost predicate Owned(fds: set<int>, extra: set<int>)
      reads this, os
    {
      && os.open == base + {s.tap} + Listening() + fds + extra
      && base !! {s.tap} !! Listening() !! fds !! extra
    }

    /** The trace is that of the run and the pending events. */
    ghost predicate Traced()
      reads this, os
    {
      && os.Valid() && Legal(s, log) && s.link.fd in base
      && os.trace == start + Trace(s, log) + pending
    }

    /** The slots hold just these clients. */
    ghost predicate Slotted(fds: set<int>)
      reads clients
    {
      clients.Length == MAX_CLIENTS && Distinct(clients[..]) && FdsOf(clients[..]) == fds
    }

    ghost predicate Held(extra: set<int>)
      reads this, os, clients
    {
      Traced() && Slotted(Present(log)) && Owned(Present(log), extra)
    }

    ghost predicate Inv()
      reads this, os, clients
    {
      Held({})
    }

    constructor (os: Os, s: Setup, listenFd: int, ghost base: set<int>)
      requires os.Valid() && s.link.fd in base && s.tap !in base && (listenFd == NO_FD || listenFd !in base + {s.tap})
      requires os.open == base + {s.tap} + if listenFd == NO_FD then {} else {listenFd}
      ensures Inv() && fresh(clients)
      ensures this.os == os && this.s == s && this.listenFd == listenFd
      ensures log == [] && pending == [] && this.base == base && start == os.trace
    {
      this.os, this.s, this.listenFd := os, s, listenFd;
      this.base, this.start := base, os.trace;
      this.log, this.pending := [], [];
      this.clients := new Client[MAX_CLIENTS](_ => Client(false, 0));
    }

    // ---------------------------------------------------------------------
    // Bookkeeping
    // ---------------------------------------------------------------------

    /** Notes events that the system has just added to its trace. */
    ghost method Observe(es: seq<Event>, before: seq<Event>)
      requires before == start + Trace(s, log) + pending && os.trace == before + es
      modifies this`pending
      ensures pending == old(pending) + es && os.trace == start + Trace(s, log) + pending
    {
      Regrouped(start, Trace(s, log), pending, es);
      pending := pending + es;
    }

    /** The pending events are the effects of an action, and the slots and descriptors are as after it. */
    ghost method Commit(a: Action)
      requires Traced() && Enabled(s, Present(log), a) && pending == Effects(s, a)
      requires Slotted(Next(Present(log), a)) && Owned(Next(Present(log), a), {})
      modifies this`log, this`pending
      ensures Inv() && pending == [] && log == old(log) + [a]
    {
      hide Enabled, Effects, Next, Trace, Present, Legal, Os.Valid;
      LogStep(s, log, a);
      Regrouped(start, Trace(s, log), [], pending);
      log, pending := log + [a], [];
      Regrouped(start, Trace(s, log), [], []);
    }

    // ---------------------------------------------------------------------
    // Passing a frame on
    // ---------------------------------------------------------------------

    /** Sends a frame as a message. Frames of the sizes that occur always fit the buffer. */
    method SendTapPayload(fd: int, session: u32, frame: Wire.Text) returns (ok: bool)
      requires os.Valid() && fd in os.open && MIN_FRAME <= |frame| <= SEND_MAX - TAP_FRAME_OVERHEAD
      modifies os`trace
      ensures os.Valid()
      ensures var m := FrameMsg(session, s.link.network, frame);
        os.trace == old(os.trace) + [if ok then Sent(fd, m) else Unsent(fd, m)]
    {
      hide Os.Valid, TapFrameLayout;
      var payload := new byte[SEND_MAX];
      FrameImageSize(s.link.network, frame);
      var n := EncodeTapFrame(payload, s.link.network, frame);
      assert n.Some?;
      assert payload[..n.value] == TapFrameLayout(TapFrame(s.link.network, frame));
      ok := os.SendMsg(fd, Msg(MSG_TAP_FRAME, session, payload[..n.value]));
    }

    /** Offers a frame to every client but the one in slot skip; those that cannot take it are closed and removed. */
    method SendTap(skip: int, frame: Wire.Text) returns (ghost dropped: set<int>)
      requires os.Valid() && clients.Length == MAX_CLIENTS && Distinct(clients[..]) && FdsOf(clients[..]) <= os.open
      requires MIN_FRAME <= |frame| <= SEND_MAX - TAP_FRAME_OVERHEAD
      modifies clients, os`open, os`trace
      ensures os.Valid() && os.open == old(os.open) - dropped
      ensures clients[..] == Without(old(clients[..]), dropped)
      ensures forall fd | fd in dropped :: fd in OrderBut(old(clients[..]), skip)
      ensures os.trace
        == old(os.trace) + Casts(OrderBut(old(clients[..]), skip), dropped, FrameMsg(0, s.link.network, frame))
    {
      ghost var slots, m := clients[..], FrameMsg(0, s.link.network, frame);
      ghost var es: seq<Event> := [];
      dropped := {};
      var i := 0;
      OfferingNone(slots, skip, m);
      hide Os.Valid, OrderBut, Casts, Without, Distinct, FdsOf, FrameMsg, Offering;
      while i < MAX_CLIENTS
        invariant 0 <= i <= MAX_CLIENTS
        invariant os.Valid() && os.open == old(os.open) - dropped
        invariant Offering(slots, clients[..], skip, i, dropped, es, m)
        invariant os.trace == old(os.trace) + es
      {
        dropped, es := OfferNext(i, skip, frame, slots, dropped, es, old(os.trace));
        i := i + 1;
      }
      OfferingAll(slots, clients[..], skip, dropped, es, m);
    }

    method OfferNext(
      i: nat, skip: int, frame: Wire.Text,
      ghost slots: seq<Client>, ghost dropped: set<int>, ghost es: seq<Event>, ghost before: seq<Event>)
      returns (ghost dropped': set<int>, ghost es': seq<Event>)
      requires os.Valid() && i < |slots| && Distinct(slots) && FdsOf(slots) - dropped <= os.open
      requires Offering(slots, clients[..], skip, i, dropped, es, FrameMsg(0, s.link.network, frame))
      requires os.trace == before + es
      requires MIN_FRAME <= |frame| <= SEND_MAX - TAP_FRAME_OVERHEAD
      modifies clients, os`open, os`trace
      ensures os.Valid() && dropped <= dropped' && os.open == old(os.open) - (dropped' - dropped)
      ensures Offering(slots, clients[..], skip, i + 1, dropped', es', FrameMsg(0, s.link.network, frame))
      ensures os.trace == before + es'
    {
      hide Os.Valid, OrderBut, Casts, Without, Distinct, FdsOf, FrameMsg;
      assert clients[i..] == clients[..][i..];
      ghost var drop, more;
      drop, more := OfferTo(i, skip, frame, slots, dropped);
      assert clients[i + 1..] == clients[..][i + 1..] && clients[..i + 1] == clients[..][..i + 1];
      OneMore(slots, skip, i, dropped, FrameMsg(0, s.link.network, frame), drop);
      dropped' := if drop then dropped + {slots[i].fd} else dropped;
      es' := es + more;
      NotDroppedYetIf(slots, skip, i, dropped);
    }

    method OfferTo(i: nat, skip: int, frame: Wire.Text, ghost slots: seq<Client>, ghost dropped: set<int>)
      returns (ghost drop: bool, ghost more: seq<Event>)
      requires os.Valid() && clients.Length == |slots| && i < |slots| && Distinct(slots)
      requires clients[i..] == slots[i..] && forall fd | fd in dropped :: fd in OrderBut(slots[..i], skip)
      requires FdsOf(slots) - dropped <= os.open
      requires MIN_FRAME <= |frame| <= SEND_MAX - TAP_FRAME_OVERHEAD
      modifies clients, os`open, os`trace
      ensures os.Valid() && os.open == old(os.open) - if drop then {slots[i].fd} else {}
      ensures drop ==> slots[i].active && i != skip
      ensures clients[..i + 1] == old(clients[..i]) + [if drop then slots[i].(active := false) else slots[i]]
      ensures clients[i + 1..] == slots[i + 1..]
      ensures more == if !slots[i].active || i == skip then []
                      else Cast(slots[i].fd, if drop then {slots[i].fd} else {}, FrameMsg(0, s.link.network, frame))
      ensures os.trace == old(os.trace) + more
    {
      hide Os.Valid, OrderBut, Distinct, FrameMsg;
      drop, more := false, [];
      assert clients[i] == clients[i..][0] == slots[i];
      assert clients[i + 1..] == clients[i..][1..];
      if !clients[i].active || i == skip {
        return;
      }
      NotDroppedYet(slots, skip, i, dropped);
      assert slots[i].fd in FdsOf(slots);
      var ok := SendTapPayload(clients[i].fd, 0, frame);
      if !ok {
        ClientClose(i);
        return true, [Unsent(slots[i].fd, FrameMsg(0, s.link.network, frame)), Closed(slots[i].fd)];
      }
      more := [Sent(slots[i].fd, FrameMsg(0, s.link.network, frame))];
    }

    method ClientClose(i: nat)
      requires os.Valid() && i < clients.Length && clients[i].active && clients[i].fd in os.open
      modifies clients, os`open, os`trace
      ensures os.Valid() && os.open == old(os.open) - {old(clients[i].fd)}
      ensures os.trace == old(os.trace) + [Closed(old(clients[i].fd))]
      ensures clients[..] == old(clients[..])[i := old(clients[i]).(active := false)]
    {
      os.Close(clients[i].fd);
      clients[i] := clients[i].(active := false);
    }

    /** Passes a frame on to the clients; what is left is to note the action that this completes. */
    method Spread(skip: int, frame: Wire.Text) returns (ghost order: seq<int>, ghost dropped: set<int>)
      requires Inv() && -1 <= skip < MAX_CLIENTS && (skip >= 0 ==> clients[skip].active)
      requires MIN_FRAME <= |frame| <= SEND_MAX - TAP_FRAME_OVERHEAD
      modifies this`pending, clients, os`open, os`trace
      ensures clients[..] == Without(old(clients[..]), dropped)
      ensures Traced() && pending == old(pending) + Casts(order, dropped, FrameMsg(0, s.link.network, frame))
      ensures Slotted(Present(log) - dropped) && Owned(Present(log) - dropped, {})
      ensures var targets := Present(log) - if skip >= 0 then {old(clients[skip].fd)} else {};
        Lists(order, targets) && dropped <= targets
    {
      hide Legal, Trace, Present, OpenAfter, Disciplined, Distinct, FdsOf, Casts, OrderBut, Without, Lists;
      ghost var slots := clients[..];
      OrderLists(slots, skip);
      order := OrderBut(slots, skip);
      dropped := SendTap(skip, frame);
      Observe(Casts(order, dropped, FrameMsg(0, s.link.network, frame)), old(os.trace));
      WithoutFds(slots, dropped);
      ListedOnly(order, FdsOf(slots) - if skip >= 0 then {slots[skip].fd} else {}, dropped);
    }

    // ---------------------------------------------------------------------
    // The device and the control peer
    // ---------------------------------------------------------------------

    /** A frame from the device goes to the control peer and to every client; fails with the device or the control peer. */
    method TapReadable() returns (ok: bool)
      requires Inv() && pending == []
      modifies this`log, this`pending, clients, os`open, os`trace
      ensures Inv()
      ensures ok ==> pending == [] && log != [] && Init(log) == old(log) && (Final(log).FromTap? || Final(log).Skipped?)
      ensures ok ==> Final(log).FromTap? || |Final(log).noise| < 14 || |Final(log).noise| > s.mtu + 18
      ensures ok ==> Final(log).Skipped? || 14 <= |Final(log).frame| <= s.mtu + 18
      ensures !ok ==> log == old(log) && HaltedBy(s, pending)
    {
      hide Legal, Trace, Present, OpenAfter, Disciplined, Distinct, FdsOf, Casts, Lists, Slotted, Owned, FrameMsg;
      var frame := ReadTap();
      if frame.None? {
        return false;
      }
      if !(MIN_FRAME <= |frame.value| <= s.mtu + ETHERNET_EXTRA) {
        Commit(Skipped(frame.value));
        return true;
      }
      ok := TellControl(frame.value);
      if ok {
        ghost var order, dropped;
        order, dropped := Spread(-1, frame.value);
        NobodyExcepted(Present(log));
        Commit(FromTap(frame.value, order, dropped));
      }
    }

    method ReadTap() returns (frame: Option<seq<byte>>)
      requires Inv() && pending == []
      modifies this`pending, os`trace
      ensures Inv() && pending == [if frame.Some? then FrameIn(s.tap, frame.value) else FrameMissed(s.tap)]
      ensures frame.Some? ==> |frame.value| <= TAP_READ_MAX
    {
      hide Legal, Trace, Present, OpenAfter, Disciplined, Distinct, FdsOf;
      frame := os.TapRead(s.tap, TAP_READ_MAX);
      Observe([if frame.Some? then FrameIn(s.tap, frame.value) else FrameMissed(s.tap)], old(os.trace));
    }

    method TellControl(frame: Wire.Text) returns (ok: bool)
      requires Inv() && MIN_FRAME <= |frame| <= SEND_MAX - TAP_FRAME_OVERHEAD
      modifies this`pending, os`trace
      ensures Inv()
      ensures var m := FrameMsg(s.link.session, s.link.network, frame);
        pending == old(pending) + [if ok then Sent(s.link.fd, m) else Unsent(s.link.fd, m)]
    {
      hide Legal, Trace, Present, OpenAfter, Disciplined, Distinct, FdsOf, FrameMsg;
      ok := SendTapPayload(s.link.fd, s.link.session, frame);
      ghost var m := FrameMsg(s.link.session, s.link.network, frame);
      Observe([if ok then Sent(s.link.fd, m) else Unsent(s.link.fd, m)], old(os.trace));
    }

    /** Writes a received frame to the device. */
    method WriteTap(frame: seq<byte>) returns (ok: bool)
      requires Inv()
      modifies this`pending, os`trace
      ensures Inv() && pending == old(pending) + [if ok then FrameOut(s.tap, frame) else FrameRefused(s.tap, frame)]
    {
      hide Legal, Trace, Present, OpenAfter, Disciplined, Distinct, FdsOf;
      ok := os.TapWrite(s.tap, frame);
      Observe([if ok then FrameOut(s.tap, frame) else FrameRefused(s.tap, frame)], old(os.trace));
    }

    method Hear(fd: int) returns (raw: Option<Msg>)
      requires Inv() && pending == [] && fd in os.open
      modifies this`pending, os`trace
      ensures Inv() && pending == [if raw.Some? then Received(fd, raw.value) else Unheard(fd)]
      ensures raw.Some? ==> Receivable(raw.value, PAYLOAD_MAX_CONTROL)
    {
      hide Legal, Trace, Present, OpenAfter, Disciplined, Distinct, FdsOf, Receivable;
      raw := os.RecvMsg(fd, PAYLOAD_MAX_CONTROL);
      Observe([if raw.Some? then Received(fd, raw.value) else Unheard(fd)], old(os.trace));
    }

    /** A frame from the control peer goes to the device and to every client, an answer nowhere; anything else fails. */
    method ControlReadable() returns (ok: bool)
      requires Inv() && pending == []
      modifies this`log, this`pending, clients, os`open, os`trace
      ensures Inv()
      ensures ok ==> pending == [] && log != [] && Init(log) == old(log) && (Final(log).FromControl? || Final(log).Answer?)
      ensures !ok ==> log == old(log) && HaltedBy(s, pending)
    {
      hide Legal, Trace, Present, OpenAfter, Disciplined, Distinct, FdsOf, Casts, Lists, FrameMsg, ParseTapFrame, Receivable;
      var raw := Hear(s.link.fd);
      if raw.None? {
        return false;
      }
      if raw.value.typ == MSG_PONG {
        Commit(Answer(raw.value));
        return true;
      }
      if raw.value.typ != MSG_TAP_FRAME {
        return false;
      }
      var m := DecodeTapFrame(raw.value.payload);
      if m.None? || m.value.networkId != s.link.network {
        return false;
      }
      ok := ControlFrame(raw.value, m.value.frame);
    }

    method ControlFrame(raw: Msg, frame: Wire.Text) returns (ok: bool)
      requires Inv() && pending == [Received(s.link.fd, raw)]
      requires Receivable(raw, PAYLOAD_MAX_CONTROL) && Carries(raw, s.link.network, frame)
      modifies this`log, this`pending, clients, os`open, os`trace
      ensures Inv()
      ensures ok ==> pending == [] && log != [] && Init(log) == old(log) && Final(log).FromControl?
      ensures !ok ==> log == old(log) && HaltedBy(s, pending)
    {
      hide Legal, Trace, Present, OpenAfter, Disciplined, Distinct, FdsOf, Casts, Lists, Slotted, Owned, FrameMsg, ParseTapFrame,
        Receivable;
      ReceivedSize(raw, s.link.network, frame);
      ok := WriteTap(frame);
      if ok {
        ghost var order, dropped;
        order, dropped := Spread(-1, frame);
        NobodyExcepted(Present(log));
        Commit(FromControl(raw, frame, order, dropped));
      }
    }

    // ---------------------------------------------------------------------
    // Clients
    // ---------------------------------------------------------------------

    /** Lets a client go. */
    method LoseClient(i: nat, ghost heard: Option<Msg>)
      requires Inv() && i < MAX_CLIENTS && clients[i].active
      requires pending + [Closed(clients[i].fd)] == Effects(s, Lost(clients[i].fd, heard))
      modifies this`log, this`pending, clients, os`open, os`trace
      ensures Inv() && pending == [] && log == old(log) + [Lost(old(clients[i].fd), heard)]
      ensures Thinned(old(clients[..]), clients[..], Final(log))
    {
      hide Legal, Trace, Present, OpenAfter, Disciplined, Distinct, FdsOf, Effects;
      ghost var slots, fd := clients[..], clients[i].fd;
      ActiveFd(slots, i);
      FdsFreed(slots, i);
      ClientClose(i);
      Observe([Closed(fd)], old(os.trace));
      Commit(Lost(fd, heard));
      assert Final(log) == Lost(fd, heard);
    }

    /** A client's frame goes to the device and to every other client; a client that fails or misbehaves is let go. */
    method ClientReadable(i: nat)
      requires Inv() && pending == [] && i < MAX_CLIENTS && clients[i].active
      modifies this`log, this`pending, clients, os`open, os`trace
      ensures Inv() && pending == [] && log != [] && Init(log) == old(log)
      ensures (Final(log).FromClient? || Final(log).Lost?) && Final(log).fd == old(clients[i].fd)
      ensures Thinned(old(clients[..]), clients[..], Final(log))
    {
      hide Legal, Trace, Present, OpenAfter, Disciplined, Distinct, FdsOf, Lists, Thinned, ParseTapFrame, FrameMsg, Receivable;
      ActiveFd(clients[..], i);
      var raw := Hear(clients[i].fd);
      if raw.None? {
        LoseClient(i, None);
        return;
      }
      var m := DecodeTapFrame(raw.value.payload);
      if raw.value.typ != MSG_TAP_FRAME || m.None? || m.value.networkId != s.link.network {
        LoseClient(i, raw);
        return;
      }
      ClientFrame(i, raw.value, m.value.frame);
    }

    method ClientFrame(i: nat, raw: Msg, frame: Wire.Text)
      requires Inv() && i < MAX_CLIENTS && clients[i].active && pending == [Received(clients[i].fd, raw)]
      requires Receivable(raw, PAYLOAD_MAX_CONTROL) && Carries(raw, s.link.network, frame)
      modifies this`log, this`pending, clients, os`open, os`trace
      ensures Inv() && pending == [] && log != [] && Init(log) == old(log)
      ensures (Final(log).FromClient? || Final(log).Lost?) && Final(log).fd == old(clients[i].fd)
      ensures Thinned(old(clients[..]), clients[..], Final(log))
    {
      hide Legal, Trace, Present, OpenAfter, Disciplined, Distinct, FdsOf, Lists, Casts, ParseTapFrame, FrameMsg, Receivable;
      ghost var slots, fd := clients[..], clients[i].fd;
      ActiveFd(slots, i);
      ReceivedSize(raw, s.link.network, frame);
      var ok := WriteTap(frame);
      if !ok {
        LoseClient(i, Some(raw));
        return;
      }
      ghost var order, dropped;
      order, dropped := Spread(i, frame);
      ghost var a := FromClient(fd, raw, frame, order, dropped);
      Commit(a);
      assert Final(log) == a;
    }

    /** Serves every ready client that is still there, each once, and does nothing else. */
    method ServeClients(ready: set<int>)
      requires Inv() && pending == []
      modifies this`log, this`pending, clients, os`open, os`trace
      ensures Inv() && pending == [] && Grown(old(log), log, ready)
      ensures forall fd | fd in ready && fd in Present(old(log)) :: Handled(log, |old(log)|, fd)
    {
      ghost var slots, first := clients[..], log;
      HeldDistinct();
      GrownSelf(slots, log, ready);
      ServedSelf(slots, log, |first|, ready);
      hide Held, Trace, Legal, Present, Thinned, OpenAfter, Disciplined, FdsOf, Grown, GrownFrom, Handled, Handles, Served,
        Distinct, Os.Valid;
      var i := 0;
      while i < MAX_CLIENTS
        invariant 0 <= i <= MAX_CLIENTS && clients.Length == MAX_CLIENTS == |slots|
        invariant Inv() && pending == []
        invariant Progress(slots, i, first, ready)
      {
        ServeClient(i, ready, slots, first);
        i := i + 1;
      }
      ServedAll(slots, clients[..], first, log, ready, Present(first));
    }

    /** The ready clients in the slots before i have been served. */
    ghost predicate Progress(slots: seq<Client>, i: nat, first: Log, ready: set<int>)
      reads this`log, clients
    {
      GrownFrom(slots, i, first, log, ready) && Served(slots, clients[..], i, log, |first|, ready)
    }

    /** Serves the client in one slot, if it is there and ready. */
    method ServeClient(i: nat, ready: set<int>, ghost slots: seq<Client>, ghost first: Log)
      requires Inv() && pending == [] && i < MAX_CLIENTS == clients.Length && Distinct(slots)
      requires Progress(slots, i, first, ready)
      modifies this`log, this`pending, clients, os`open, os`trace
      ensures Inv() && pending == []
      ensures Progress(slots, i + 1, first, ready)
    {
      ghost var before, was := log, clients[..];
      ServedSlot(slots, was, i, first, log, ready);
      hide Held, Trace, Legal, Present, Thinned, OpenAfter, Disciplined, FdsOf, GrownFrom, Served, Handled, Distinct;
      if clients[i].active && clients[i].fd in ready {
        ClientReadable(i);
        GrownStep(slots, i, first, before, log, ready);
        ServedStep(slots, was, clients[..], i, before, log, |first|, ready);
      } else {
        GrownSkip(slots, i, first, log, ready);
        ServedSkip(slots, was, i, log, |first|, ready);
      }
    }

    lemma HeldDistinct()
      requires Inv()
      ensures clients.Length == MAX_CLIENTS && Distinct(clients[..]) && FdsOf(clients[..]) == Present(log)
    {
    }

    // ---------------------------------------------------------------------
    // New clients
    // ---------------------------------------------------------------------

    /** A client with a good token gets a free slot; without one, or a good token, it is closed. Fails with the listener. */
    method Accept(now: nat) returns (ok: bool)
      requires Inv() && pending == [] && listenFd != NO_FD
      modifies this`log, this`pending, clients, os`open, os`trace
      ensures Inv()
      ensures !ok ==> log == old(log) && pending == [NotOpened]
      ensures ok ==> pending == [] && log != [] && Init(log) == old(log)
      ensures ok ==> (Final(log).Joined? || Final(log).Rejected?) && Final(log).now == now
    {
      hide Legal, Trace, Present, OpenAfter, Disciplined, Distinct, FdsOf, Admitted;
      ghost var before := os.trace;
      var fd;
      ghost var at, text;
      ok, fd, at, text := AcceptClient(os, listenFd, s.me, s.link.network, now);
      if !ok {
        Observe([NotOpened], before);
        return;
      }
      if fd == NO_FD {
        Observe([Opened(at), Heard(at, text), Closed(at)], before);
        Commit(Rejected(at, text, now));
      } else {
        Observe([Opened(fd), Heard(fd, text)], before);
        Add(fd, text, now);
      }
    }

    method Add(fd: int, ghost text: string, ghost now: nat)
      requires Held({fd}) && pending == [Opened(fd), Heard(fd, text)] && Admitted(s.me, s.link.network, now, text)
      modifies this`log, this`pending, clients, os`open, os`trace
      ensures Inv() && pending == [] && log != [] && Init(log) == old(log)
      ensures (Final(log).Joined? || Final(log).Rejected?) && Final(log).now == now
    {
      hide Legal, Trace, Present, OpenAfter, Disciplined, Distinct, FdsOf, Admitted, Os.Valid, Owned;
      var i := 0;
      AllTaken(clients[..]);
      while i < MAX_CLIENTS
        invariant 0 <= i <= MAX_CLIENTS
        invariant forall j | 0 <= j < i :: clients[j].active
      {
        if !clients[i].active {
          Take(i, fd, text, now);
          return;
        }
        i := i + 1;
      }
      TurnAway(fd, text, now);
    }

    method Take(i: nat, fd: int, ghost text: string, ghost now: nat)
      requires Held({fd}) && pending == [Opened(fd), Heard(fd, text)] && Admitted(s.me, s.link.network, now, text)
      requires i < MAX_CLIENTS && !clients[i].active
      modifies this`log, this`pending, clients
      ensures Inv() && pending == [] && log == old(log) + [Joined(fd, text, now)] && Init(log) == old(log)
    {
      hide Legal, Trace, Present, OpenAfter, Disciplined, Distinct, FdsOf, Admitted;
      AllTaken(clients[..]);
      FdsPut(clients[..], i, fd);
      ghost var slots := clients[..];
      clients[i] := Client(true, fd);
      assert clients[..] == slots[i := Client(true, fd)];
      TakenIn(os.open, base, s.tap, Listening(), Present(log), fd);
      Commit(Joined(fd, text, now));
    }

    method TurnAway(fd: int, ghost text: string, ghost now: nat)
      requires Held({fd}) && pending == [Opened(fd), Heard(fd, text)] && |Present(log)| == MAX_CLIENTS
      modifies this`log, this`pending, os`open, os`trace
      ensures Inv() && pending == [] && log == old(log) + [Rejected(fd, text, now)] && Init(log) == old(log)
    {
      hide Legal, Trace, Present, OpenAfter, Disciplined, Distinct, FdsOf, Admitted;
      os.Close(fd);
      LetGo(old(os.open), base, s.tap, Listening(), Present(log), fd);
      Observe([Closed(fd)], old(os.trace));
      Commit(Rejected(fd, text, now));
    }

    // ---------------------------------------------------------------------
    // One round
    // ---------------------------------------------------------------------

    method SendPing() returns (ok: bool)
      requires Inv() && pending == []
      modifies this`log, this`pending, os`trace
      ensures Inv() && log == if ok then old(log) + [Ping] else old(log)
      ensures pending == if ok then [] else [Unsent(s.link.fd, Streams.PingMsg(s.link))]
    {
      hide Legal, Trace, Present, OpenAfter, Disciplined, Distinct, FdsOf;
      ok := os.SendMsg(s.link.fd, Streams.PingMsg(s.link));
      Observe([if ok then Sent(s.link.fd, Streams.PingMsg(s.link)) else Unsent(s.link.fd, Streams.PingMsg(s.link))], old(os.trace));
      if ok {
        Commit(Ping);
      }
    }

    method WatchSet() returns (watch: set<int>)
      requires Inv()
      ensures watch == {s.link.fd, s.tap} + Listening() + Present(log)
    {
      hide Legal, Trace, Present, OpenAfter, Disciplined, Distinct;
      watch := {s.link.fd, s.tap} + Listening();
      var i := 0;
      while i < MAX_CLIENTS
        invariant 0 <= i <= MAX_CLIENTS
        invariant watch == {s.link.fd, s.tap} + Listening() + FdsOf(clients[..i])
      {
        FdsNext(clients[..], i);
        if clients[i].active {
          watch := watch + {clients[i].fd};
        }
        i := i + 1;
      }
      assert clients[..] == clients[..MAX_CLIENTS];
    }

    /** The device first, then the control peer alone, else the listener alone, else every ready client. */
    method ServeReady(ready: set<int>) returns (ok: bool)
      requires Inv() && pending == []
      modifies this`log, this`pending, clients, os`open, os`trace
      ensures Inv()
      ensures ok ==> pending == [] && InTurn(s, Listening(), old(log), log, ready)
      ensures !ok ==> HaltedBy(s, pending) && (log == old(log) || TapServed(s, old(log), log, ready))
    {
      hide Held, Trace, Legal, Present, HaltedBy, Grown, Handled, Handles;
      ghost var first := log;
      if s.tap in ready {
        ok := TapReadable();
        if !ok {
          return;
        }
      }
      ghost var second := log;
      if s.link.fd in ready {
        ok := ControlReadable();
        if ok {
          TurnTaken(s, Listening(), first, second, log, ready);
        }
      } else if listenFd != NO_FD && listenFd in ready {
        var now: nat := *;
        assert listenFd in Listening() * ready;
        ok := Accept(now);
        if ok {
          TurnTaken(s, Listening(), first, second, log, ready);
        } else {
          AcceptHalts(s);
        }
      } else {
        ServeClients(ready);
        TurnTaken(s, Listening(), first, second, log, ready);
        ok := true;
      }
    }

    method Round() returns (ok: bool, ghost selected: Selected)
      requires Inv() && pending == []
      modifies this`log, this`pending, clients, os
      ensures Inv()
      ensures ok ==> pending == [] && os.ticks < old(os.ticks) && !selected.Broken?
      ensures !ok ==> HaltedBy(s, pending)
      ensures selected.Interrupted? ==> ok && log == old(log)
      ensures ok && selected.TimedOut? ==> log == old(log) + [Ping]
      ensures selected.Ready? ==>
        if ok then InTurn(s, Listening(), old(log), log, selected.fds)
        else log == old(log) || TapServed(s, old(log), log, selected.fds)
      ensures !ok && !selected.Ready? ==> log == old(log)
    {
      hide Legal, Trace, Present, OpenAfter, Disciplined, Distinct, FdsOf, InTurn, Slotted;
      ok := false;
      var watch := WatchSet();
      var answer := os.Select(watch);
      selected := answer;
      match answer {
        case Broken =>
          Observe([WaitFailed], old(os.trace));
        case Interrupted =>
          ok := true;
        case TimedOut =>
          ok := SendPing();
        case Ready(fds) =>
          ok := ServeReady(fds);
      }
    }

    // ---------------------------------------------------------------------
    // Leaving
    // ---------------------------------------------------------------------

    method CloseAll() returns (ghost closings: seq<Event>)
      requires os.Valid() && clients.Length == MAX_CLIENTS && Distinct(clients[..]) && FdsOf(clients[..]) <= os.open
      modifies clients, os`open, os`trace
      ensures os.Valid() && os.open == old(os.open) - old(FdsOf(clients[..]))
      ensures OnlyCloses(closings) && os.trace == old(os.trace) + closings
    {
      hide Os.Valid, Distinct, FdsOf, OnlyCloses;
      ghost var slots := clients[..];
      closings := [];
      NoneClosed(os.trace);
      NoFds(slots);
      var i := 0;
      while i < MAX_CLIENTS
        invariant 0 <= i <= MAX_CLIENTS && clients[i..] == slots[i..]
        invariant os.Valid() && os.open == old(os.open) - FdsOf(slots[..i])
        invariant OnlyCloses(closings) && os.trace == old(os.trace) + closings
      {
        FdsNext(slots, i);
        assert clients[i] == clients[i..][0] == slots[i];
        assert clients[i + 1..] == clients[i..][1..];
        if clients[i].active {
          NotClosedYet(slots, i);
          OneMoreClosed(old(os.trace), closings, slots[i].fd);
          closings := closings + [Closed(slots[i].fd)];
          ClientClose(i);
        }
        i := i + 1;
      }
      assert slots[..MAX_CLIENTS] == slots;
    }

    /** Closes the listener, the clients and the device, in this order. */
    method Finish() returns (ghost closings: seq<Event>)
      requires Inv()
      modifies this`listenFd, clients, os`open, os`trace
      ensures os.Valid() && os.open == base
      ensures OnlyCloses(closings) && os.trace == old(os.trace) + closings
    {
      hide Legal, Trace, Present, OpenAfter, Disciplined, Distinct, FdsOf;
      ghost var first: seq<Event> := [];
      if listenFd != NO_FD {
        os.Close(listenFd);
        first := [Closed(listenFd)];
        listenFd := NO_FD;
      }
      ghost var rest := CloseAll();
      os.Close(s.tap);
      closings := first + rest + [Closed(s.tap)];
    }

    method Serve()
      requires Inv() && pending == []
      modifies this`log, this`pending, clients, os
      ensures Inv() && HaltedBy(s, pending)
    {
      hide Held, Trace, Legal, Present, InTurn;
      var ok := true;
      while ok
        invariant Inv()
        invariant if ok then pending == [] else HaltedBy(s, pending)
        decreases ok, os.ticks
      {
        ghost var selected;
        ok, selected := Round();
      }
    }
  }

  lemma {:induction false} FrameImageSize(network: u32, frame: Wire.Text)
    ensures |TapFrameLayout(TapFrame(network, frame))| == TAP_FRAME_OVERHEAD + |frame|
  {
  }

  lemma {:induction false} ListedOnly(order: seq<int>, fds: set<int>, dropped: set<int>)
    requires Lists(order, fds) && forall fd | fd in dropped :: fd in order
    ensures dropped <= fds
  {
    forall fd | fd in dropped
      ensures fd in fds
    {
    }
  }

  lemma {:induction false} NobodyExcepted(fds: set<int>)
    ensures fds - {} == fds
  {
  }

  lemma {:induction false} ReceivedSize(raw: Msg, network: u32, frame: Wire.Text)
    requires Receivable(raw, PAYLOAD_MAX_CONTROL) && Carries(raw, network, frame)
    ensures MIN_FRAME <= |frame| <= SEND_MAX - TAP_FRAME_OVERHEAD
  {
    ReceivedFramesFit(raw, network, frame, 0);
    TapFrameExact(raw.payload, TapFrame(network, frame));
  }

  /**
   * What ends the hub: a failed wait, accept or ping; the device cannot be read or
   * refuses the control peer's frame; the control peer cannot be sent a frame, is
   * lost, or sends something unacceptable.
   */
  ghost predicate HaltedBy(s: Setup, es: seq<Event>) {
    || es == [WaitFailed]
    || es == [NotOpened]
    || es == [Unsent(s.link.fd, Streams.PingMsg(s.link))]
    || es == [FrameMissed(s.tap)]
    || es == [Unheard(s.link.fd)]
    || (|es| == 1 && es[0].Received? && es[0].fd == s.link.fd && es[0].msg.typ != MSG_PONG
        && !Streams.IsFrameOf(es[0].msg, s.link.network))
    || (|es| == 2 && es[0].FrameIn? && es[0].fd == s.tap && SizeOk(s, |es[0].frame|)
        && es[1] == Unsent(s.link.fd, FrameMsg(s.link.session, s.link.network, es[0].frame)))
    || (|es| == 2 && es[0].Received? && es[0].fd == s.link.fd && es[1].FrameRefused? && es[1].fd == s.tap
        && Carries(es[0].msg, s.link.network, es[1].frame))
  }

  /** An action deals with a client: it is heard, let go, or dropped. */
  predicate Handles(a: Action, fd: int) {
    ((a.FromClient? || a.Lost?) && a.fd == fd) || fd in DroppedBy(a)
  }

  /** An action has freed some slots, all of clients that it dealt with. */
  ghost predicate Thinned(before: seq<Client>, after: seq<Client>, a: Action) {
    && |after| == |before|
    && forall i | 0 <= i < |after| ::
         (after[i].active ==> after[i] == before[i])
         && (before[i].active && !after[i].active ==> Handles(a, before[i].fd))
  }

  lemma {:induction false} ActiveFd(slots: seq<Client>, i: nat)
    requires i < |slots| && slots[i].active
    ensures slots[i].fd in FdsOf(slots)
  {
  }

  /** From position n on, a run has dealt with a client. */
  ghost predicate Handled(log: Log, n: nat, fd: int) {
    exists k :: n <= k < |log| && Handles(log[k], fd)
  }

  /** A run continued by actions of ready clients, at most one of each. */
  ghost predicate Grown(before: Log, after: Log, ready: set<int>) {
    && |before| <= |after| && after[..|before|] == before
    && (forall k | |before| <= k < |after| :: (after[k].FromClient? || after[k].Lost?) && after[k].fd in ready)
    && forall k, l | |before| <= k < l < |after| :: after[k].fd != after[l].fd
  }

  /** So far those of the clients in the slots before i. */
  ghost predicate GrownFrom(slots: seq<Client>, i: nat, before: Log, after: Log, ready: set<int>) {
    && Grown(before, after, ready) && i <= |slots|
    && forall k | |before| <= k < |after| :: after[k].fd in FdsOf(slots[..i])
  }

  /** Up to slot i every ready client has been dealt with, and so has every client that has gone. */
  ghost predicate Served(before: seq<Client>, now: seq<Client>, i: nat, log: Log, n: nat, ready: set<int>) {
    && |now| == |before| && i <= |before|
    && (forall j | 0 <= j < |before| :: now[j].active ==> now[j] == before[j])
    && (forall j | 0 <= j < |before| && before[j].active && !now[j].active :: Handled(log, n, before[j].fd))
    && (forall j | 0 <= j < i && before[j].active && before[j].fd in ready :: Handled(log, n, before[j].fd))
  }

  lemma {:induction false} GrownSelf(slots: seq<Client>, log: Log, ready: set<int>)
    ensures GrownFrom(slots, 0, log, log, ready)
  {
  }

  lemma {:induction false} GrownSkip(slots: seq<Client>, i: nat, first: Log, before: Log, ready: set<int>)
    requires GrownFrom(slots, i, first, before, ready) && i < |slots|
    ensures GrownFrom(slots, i + 1, first, before, ready)
  {
    FdsNext(slots, i);
    hide FdsOf;
  }

  lemma {:induction false} GrownStep(slots: seq<Client>, i: nat, first: Log, before: Log, after: Log, ready: set<int>)
    requires GrownFrom(slots, i, first, before, ready) && i < |slots| && Distinct(slots) && slots[i].active
    requires after != [] && Init(after) == before && (Final(after).FromClient? || Final(after).Lost?)
    requires Final(after).fd == slots[i].fd && slots[i].fd in ready
    ensures GrownFrom(slots, i + 1, first, after, ready)
  {
    FdsNext(slots, i);
    NotClosedYet(slots, i);
    hide FdsOf, Distinct;
    assert after[..|first|] == before[..|first|];
    assert forall k | 0 <= k < |before| :: after[k] == before[k];
    assert after[|before|] == Final(after);
  }

  lemma {:induction false} ServedSelf(slots: seq<Client>, log: Log, n: nat, ready: set<int>)
    ensures Served(slots, slots, 0, log, n, ready)
  {
  }

  lemma {:induction false} ServedSkip(slots: seq<Client>, now: seq<Client>, i: nat, log: Log, n: nat, ready: set<int>)
    requires Served(slots, now, i, log, n, ready) && i < |now| && !(now[i].active && now[i].fd in ready)
    ensures Served(slots, now, i + 1, log, n, ready)
  {
  }

  lemma {:induction false} StillHandled(before: Log, after: Log, n: nat, fd: int)
    requires after != [] && Init(after) == before && Handled(before, n, fd)
    ensures Handled(after, n, fd)
  {
    var k :| n <= k < |before| && Handles(before[k], fd);
    assert after[k] == before[k];
  }

  lemma {:induction false} NowHandled(log: Log, n: nat, fd: int)
    requires log != [] && n < |log| && Handles(Final(log), fd)
    ensures Handled(log, n, fd)
  {
    assert log[|log| - 1] == Final(log);
  }

  lemma {:induction false} ServedStep(
    slots: seq<Client>, was: seq<Client>, now: seq<Client>, i: nat, before: Log, after: Log, n: nat, ready: set<int>)
    requires Served(slots, was, i, before, n, ready) && i < |was| && was[i].active
    requires after != [] && Init(after) == before && n <= |before|
    requires Thinned(was, now, Final(after)) && Handles(Final(after), was[i].fd)
    ensures Served(slots, now, i + 1, after, n, ready)
  {
    hide Handles;
    forall fd | Handled(before, n, fd)
      ensures Handled(after, n, fd)
    {
      StillHandled(before, after, n, fd);
    }
    forall fd | Handles(Final(after), fd)
      ensures Handled(after, n, fd)
    {
      NowHandled(after, n, fd);
    }
    hide Handled;
  }

  lemma {:induction false} ServedSlot(slots: seq<Client>, now: seq<Client>, i: nat, first: Log, log: Log, ready: set<int>)
    requires Served(slots, now, i, log, |first|, ready) && GrownFrom(slots, i, first, log, ready) && i < |now|
    ensures i < |slots| && (now[i].active ==> now[i] == slots[i]) && |first| <= |log|
  {
  }

  lemma {:induction false} ServedAll(
    slots: seq<Client>, now: seq<Client>, first: Log, log: Log, ready: set<int>, present: set<int>)
    requires Served(slots, now, |slots|, log, |first|, ready) && GrownFrom(slots, |slots|, first, log, ready)
    requires present == FdsOf(slots)
    ensures Grown(first, log, ready)
    ensures forall fd | fd in ready && fd in present :: Handled(log, |first|, fd)
  {
    hide Handled, Grown;
    forall fd | fd in ready && fd in present
      ensures Handled(log, |first|, fd)
    {
      var i :| 0 <= i < |slots| && slots[i].active && slots[i].fd == fd;
    }
  }

  lemma {:induction false} FdsNext(slots: seq<Client>, i: nat)
    requires i < |slots|
    ensures FdsOf(slots[..i + 1]) == FdsOf(slots[..i]) + if slots[i].active then {slots[i].fd} else {}
    ensures FdsOf(slots[..0]) == {}
  {
    var r := slots[..i + 1];
    assert forall j | 0 <= j < i :: r[j] == slots[..i][j] == slots[j];
    assert r[i] == slots[i];
  }

  /**
   * What a round does: the device's action if it is ready, and then the control
   * peer's alone if that is ready, else the listener's alone, else one of every
   * ready client that is still there.
   */
  ghost predicate InTurn(s: Setup, listening: set<int>, before: Log, after: Log, ready: set<int>) {
    exists second :: TapServed(s, before, second, ready) && RestServed(s, listening, second, after, ready)
  }

  /** The device's part of a round is over. */
  ghost predicate TapServed(s: Setup, before: Log, after: Log, ready: set<int>) {
    if s.tap in ready then after != [] && Init(after) == before && (Final(after).FromTap? || Final(after).Skipped?)
    else after == before
  }

  ghost predicate RestServed(s: Setup, listening: set<int>, before: Log, after: Log, ready: set<int>) {
    if s.link.fd in ready then after != [] && Init(after) == before && (Final(after).FromControl? || Final(after).Answer?)
    else if listening * ready != {} then after != [] && Init(after) == before && (Final(after).Joined? || Final(after).Rejected?)
    else Grown(before, after, ready) && forall fd | fd in ready && fd in Present(before) :: Handled(after, |before|, fd)
  }

  /** The descriptor of the operation in progress becomes a client's. */
  lemma {:induction false} TakenIn(open: set<int>, base: set<int>, tap: int, listening: set<int>, fds: set<int>, fd: int)
    requires open == base + {tap} + listening + fds + {fd} && base !! {tap} !! listening !! fds !! {fd}
    ensures open == base + {tap} + listening + (fds + {fd}) + {} && base !! {tap} !! listening !! (fds + {fd}) !! {}
  {
  }

  /** It is closed again. */
  lemma {:induction false} LetGo(open: set<int>, base: set<int>, tap: int, listening: set<int>, fds: set<int>, fd: int)
    requires open == base + {tap} + listening + fds + {fd} && base !! {tap} !! listening !! fds !! {fd}
    ensures open - {fd} == base + {tap} + listening + fds + {} && base !! {tap} !! listening !! fds !! {}
  {
  }

  lemma {:induction false} AcceptHalts(s: Setup)
    ensures HaltedBy(s, [NotOpened])
  {
  }

  lemma {:induction false} TurnTaken(s: Setup, listening: set<int>, first: Log, second: Log, third: Log, ready: set<int>)
    requires TapServed(s, first, second, ready) && RestServed(s, listening, second, third, ready)
    ensures InTurn(s, listening, first, third, ready)
  {
  }

  lemma {:induction false} NoFds(slots: seq<Client>)
    ensures FdsOf(slots[..0]) == {}
  {
  }

  lemma {:induction false} NotClosedYet(slots: seq<Client>, i: nat)
    requires Distinct(slots) && i < |slots| && slots[i].active
    ensures slots[i].fd in FdsOf(slots) && slots[i].fd !in FdsOf(slots[..i])
  {
  }

  // -------------------------------------------------------------------------
  // The whole life of the hub
  // -------------------------------------------------------------------------

  /** How far a run of the hub got: each step is there only if the one before succeeded. */
  datatype Run = Run(attached: bool, listener: Option<int>, pinged: bool, log: Log, pending: seq<Event>, closings: seq<Event>)

  /** The device, the bridge, the listener if there is to be one, and the first ping. */
  function Opening(s: Setup, direct: bool, run: Run): seq<Event> {
    if s.tap == NO_FD then [NotOpened]
    else if !run.attached then [Opened(s.tap), Unattached(s.tap)]
    else if direct && run.listener.None? then [Opened(s.tap), NotOpened]
    else
      [Opened(s.tap)] + (if direct then [Opened(run.listener.value)] else [])
      + [if run.pinged then Sent(s.link.fd, Streams.PingMsg(s.link)) else Unsent(s.link.fd, Streams.PingMsg(s.link))]
  }

  ghost predicate RunOk(s: Setup, direct: bool, run: Run) {
    && OnlyCloses(run.closings)
    && (run.pinged ==> s.tap != NO_FD && run.attached && (direct ==> run.listener.Some?))
    && if !run.pinged then run.log == [] && run.pending == [] else Legal(s, run.log) && HaltedBy(s, run.pending)
  }

  function EventsOf(s: Setup, direct: bool, run: Run): seq<Event> {
    Opening(s, direct, run) + Trace(s, run.log) + run.pending + run.closings
  }

  /** Opens the device, attaches it, listens, serves; whatever fails, everything opened is closed again. */
  method RunTapLoop(os: Os, link: Streams.Link, me: Identity, mtu: Mtu, direct: bool)
    returns (rc: int, ghost s: Setup, ghost run: Run)
    requires os.Valid() && link.fd in os.open
    modifies os
    ensures os.Valid() && os.open == old(os.open)
    ensures rc == -1
    ensures s.link == link && s.mtu == mtu && s.me == me && RunOk(s, direct, run)
    ensures os.trace == old(os.trace) + EventsOf(s, direct, run)
  {
    hide Legal, Trace, Present, OpenAfter, Disciplined, Distinct, FdsOf;
    rc := -1;
    var tap := os.Allocate();
    s := Setup(tap, link, mtu, me);
    if tap == NO_FD {
      run := Run(false, None, false, [], [], []);
      NoRun(s, direct, run);
      return;
    }
    var attached := os.Attach(tap);
    var listenFd := NO_FD;
    if attached && direct {
      listenFd := os.Allocate();
    }
    if !attached || (direct && listenFd == NO_FD) {
      os.Close(tap);
      run := Run(attached, None, false, [], [], [Closed(tap)]);
      NoRun(s, direct, run);
      assert os.trace == old(os.trace) + (Opening(s, direct, run) + run.closings);
      return;
    }
    run := Start(os, Setup(tap, link, mtu, me), listenFd, direct, old(os.open), old(os.trace));
  }

  /** Pings and serves, then closes the listener, the clients and the device. */
  method Start(os: Os, s: Setup, listenFd: int, direct: bool, ghost base: set<int>, ghost before: seq<Event>)
    returns (ghost run: Run)
    requires os.Valid() && s.link.fd in base && s.tap !in base && (listenFd == NO_FD || listenFd !in base + {s.tap})
    requires os.open == base + {s.tap} + (if listenFd == NO_FD then {} else {listenFd})
    requires s.tap != NO_FD && direct == (listenFd != NO_FD)
    requires os.trace == before + [Opened(s.tap)] + if direct then [Opened(listenFd)] else []
    modifies os
    ensures os.Valid() && os.open == base
    ensures RunOk(s, direct, run) && os.trace == before + EventsOf(s, direct, run)
  {
    hide Legal, Trace, Present, OpenAfter, Disciplined, Distinct, FdsOf;
    ghost var listener := if direct then Some(listenFd) else None;
    var ok := os.SendMsg(s.link.fd, Streams.PingMsg(s.link));
    run := Run(true, listener, ok, [], [], (if direct then [Closed(listenFd)] else []) + [Closed(s.tap)]);
    assert os.trace == before + Opening(s, direct, run);
    if !ok {
      NoRun(s, direct, run);
      if listenFd != NO_FD {
        os.Close(listenFd);
      }
      os.Close(s.tap);
      return;
    }
    var hub := new Hub(os, s, listenFd, base);
    hub.Serve();
    ghost var closings := hub.Finish();
    run := Run(true, listener, true, hub.log, hub.pending, closings);
    Surrounded(before, Opening(s, direct, run), Trace(s, hub.log), hub.pending, closings);
  }

  lemma {:induction false} NoRun(s: Setup, direct: bool, run: Run)
    requires run.log == [] && run.pending == [] && !run.pinged && OnlyCloses(run.closings)
    ensures RunOk(s, direct, run)
    ensures EventsOf(s, direct, run) == Opening(s, direct, run) + run.closings
  {
  }

  /** The clients in the slots before i have been offered a message; the dropped ones could not take it. */
  ghost predicate Offering(
    slots: seq<Client>, now: seq<Client>, skip: int, i: nat, dropped: set<int>, es: seq<Event>, m: Msg)
  {
    && |now| == |slots| && i <= |slots|
    && now[..i] == Without(slots[..i], dropped) && now[i..] == slots[i..]
    && (forall fd | fd in dropped :: fd in OrderBut(slots[..i], skip))
    && es == Casts(OrderBut(slots[..i], skip), dropped, m)
  }

  lemma {:induction false} OfferingNone(slots: seq<Client>, skip: int, m: Msg)
    ensures Offering(slots, slots, skip, 0, {}, [], m)
  {
  }

  lemma {:induction false} OfferingAll(slots: seq<Client>, now: seq<Client>, skip: int, dropped: set<int>, es: seq<Event>, m: Msg)
    requires Offering(slots, now, skip, |slots|, dropped, es, m)
    ensures now == Without(slots, dropped) && es == Casts(OrderBut(slots, skip), dropped, m)
    ensures forall fd | fd in dropped :: fd in OrderBut(slots, skip)
  {
    assert slots[..|slots|] == slots && now[..|slots|] == now;
  }

  lemma {:induction false} NotDroppedYetIf(slots: seq<Client>, skip: int, i: nat, dropped: set<int>)
    requires Distinct(slots) && i < |slots|
    requires forall fd | fd in dropped :: fd in OrderBut(slots[..i], skip)
    ensures slots[i].active ==> slots[i].fd !in dropped
  {
    if slots[i].active {
      NotDroppedYet(slots, skip, i, dropped);
    }
  }
}
