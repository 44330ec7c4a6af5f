/**
 * The relay hub between a TAP device, the control peer and up to eight direct
 * clients, independent of the slots that hold the clients: what every action
 * makes visible, and where every frame goes over whole runs.
 */
module Relay {
  import opened Bytes
  import opened DirectAccess
  import opened Frame
  import opened Kernel
  import opened OctetMeaning
  import opened Options
  import opened Streams
  import opened Wire
  import opened WireOctets

  const MAX_CLIENTS := 8
  const TAP_READ_MAX := MAX_MTU + 64
  const SEND_MAX := MAX_MTU + TAP_PAYLOAD_EXTRA
  const ETHERNET_EXTRA := 18

  type Mtu = m: int | MIN_MTU <= m <= MAX_MTU witness MIN_MTU

  /** What stays the same while a hub runs. */
  datatype Setup = Setup(tap: int, link: Link, mtu: Mtu, me: Identity)

  /**
   * One action of the hub. order lists the clients a frame is offered to, in
   * slot order; dropped are those that it could not be sent to.
   */
  datatype Action =
    | FromTap(frame: Wire.Text, order: seq<int>, dropped: set<int>)
    | FromControl(raw: Msg, frame: Wire.Text, order: seq<int>, dropped: set<int>)
    | FromClient(fd: int, raw: Msg, frame: Wire.Text, order: seq<int>, dropped: set<int>)
    | Skipped(noise: seq<byte>)
    | Lost(fd: int, heard: Option<Msg>)
    | Joined(fd: int, text: string, now: nat)
    | Rejected(fd: int, text: string, now: nat)
    | Ping
    | Answer(raw: Msg)

  function FrameMsg(session: u32, network: u32, frame: Wire.Text): Msg {
    Msg(MSG_TAP_FRAME, session, TapFrameLayout(TapFrame(network, frame)))
  }

  predicate Carries(raw: Msg, network: u32, frame: seq<byte>) {
    && raw.typ == MSG_TAP_FRAME
    && ParseTapFrame(raw.payload).Some?
    && ParseTapFrame(raw.payload).value.networkId == network
    && ParseTapFrame(raw.payload).value.frame == frame
  }

  /** A TAP_FRAME for a network: the network, the length of the frame, at least 14, and the frame from octet 6 on. */
  predicate Brings(m: Msg, network: u32) {
    m.typ == 7 && |m.payload| >= 20 && |m.payload| == 6 + U16At(m.payload, 4) && U32At(m.payload, 0) == network
  }

  lemma {:induction false} BringsExactly(m: Msg, network: u32)
    ensures IsFrameOf(m, network) <==> Brings(m, network)
    ensures Brings(m, network) ==> ParseTapFrame(m.payload).value.frame == m.payload[6..]
    ensures forall frame :: Carries(m, network, frame) <==> Brings(m, network) && m.payload[6..] == frame
  {
    hide U16At, U32At, ParseTapFrame;
    TapFrameOctets(m.payload);
  }

  predicate SizeOk(s: Setup, n: nat) {
    MIN_FRAME <= n <= s.mtu + ETHERNET_EXTRA
  }

  // -------------------------------------------------------------------------
  // Actions
  // -------------------------------------------------------------------------

  /** A frame is offered to clients: those that cannot take it are let go. */
  function Casts(order: seq<int>, dropped: set<int>, m: Msg): seq<Event> {
    if order == [] then []
    else
      var fd := order[|order| - 1];
      Casts(order[..|order| - 1], dropped, m) + Cast(fd, dropped, m)
  }

  function Cast(fd: int, dropped: set<int>, m: Msg): seq<Event> {
    if fd in dropped then [Unsent(fd, m), Closed(fd)] else [Sent(fd, m)]
  }

  function Effects(s: Setup, a: Action): seq<Event> {
    match a
    case FromTap(frame, order, dropped) =>
      [FrameIn(s.tap, frame), Sent(s.link.fd, FrameMsg(s.link.session, s.link.network, frame))]
      + Casts(order, dropped, FrameMsg(0, s.link.network, frame))
    case FromControl(raw, frame, order, dropped) =>
      [Received(s.link.fd, raw), FrameOut(s.tap, frame)] + Casts(order, dropped, FrameMsg(0, s.link.network, frame))
    case FromClient(fd, raw, frame, order, dropped) =>
      [Received(fd, raw), FrameOut(s.tap, frame)] + Casts(order, dropped, FrameMsg(0, s.link.network, frame))
    case Skipped(noise) => [FrameIn(s.tap, noise)]
    case Lost(fd, heard) =>
      (match heard
       case None => [Unheard(fd)]
       case Some(raw) =>
         [Received(fd, raw)]
         + (if IsFrameOf(raw, s.link.network) then [FrameRefused(s.tap, ParseTapFrame(raw.payload).value.frame)] else []))
      + [Closed(fd)]
    case Joined(fd, text, _) => [Opened(fd), Heard(fd, text)]
    case Rejected(fd, text, _) => [Opened(fd), Heard(fd, text), Closed(fd)]
    case Ping => [Sent(s.link.fd, PingMsg(s.link))]
    case Answer(raw) => [Received(s.link.fd, raw)]
  }

  function Next(present: set<int>, a: Action): set<int> {
    match a
    case FromTap(_, _, dropped) => present - dropped
    case FromControl(_, _, _, dropped) => present - dropped
    case FromClient(_, _, _, _, dropped) => present - dropped
    case Lost(fd, _) => present - {fd}
    case Joined(fd, _, _) => present + {fd}
    case _ => present
  }

  /** A list without repetitions of exactly the given descriptors. */
  ghost predicate Lists(order: seq<int>, fds: set<int>) {
    && (forall i, j | 0 <= i < j < |order| :: order[i] != order[j])
    && (forall fd :: fd in fds <==> fd in order)
  }

  /** The circumstances in which the hub takes an action. */
  ghost predicate Enabled(s: Setup, present: set<int>, a: Action) {
    match a
    case FromTap(frame, order, dropped) =>
      SizeOk(s, |frame|) && Lists(order, present) && dropped <= present
    case FromControl(raw, frame, order, dropped) =>
      && Receivable(raw, PAYLOAD_MAX_CONTROL) && Carries(raw, s.link.network, frame)
      && Lists(order, present) && dropped <= present
    case FromClient(fd, raw, frame, order, dropped) =>
      && fd in present && Receivable(raw, PAYLOAD_MAX_CONTROL) && Carries(raw, s.link.network, frame)
      && Lists(order, present - {fd}) && dropped <= present - {fd}
    case Skipped(noise) => !SizeOk(s, |noise|)
    case Lost(fd, _) => fd in present
    case Joined(fd, text, now) =>
      && fd !in present && fd != s.link.fd && fd != s.tap
      && |present| < MAX_CLIENTS && Admitted(s.me, s.link.network, now, text)
    case Rejected(fd, text, now) =>
      && fd !in present && fd != s.link.fd && fd != s.tap
      && (Admitted(s.me, s.link.network, now, text) ==> |present| == MAX_CLIENTS)
    case Ping => true
    case Answer(raw) => raw.typ == MSG_PONG
  }

  // -------------------------------------------------------------------------
  // Runs
  // -------------------------------------------------------------------------

  type Log = seq<Action>

  function Init(log: Log): Log
    requires log != []
  {
    log[..|log| - 1]
  }

  function Final(log: Log): Action
    requires log != []
  {
    log[|log| - 1]
  }

  function Present(log: Log): set<int> {
    if log == [] then {} else Next(Present(Init(log)), Final(log))
  }

  function Trace(s: Setup, log: Log): seq<Event> {
    if log == [] then [] else Trace(s, Init(log)) + Effects(s, Final(log))
  }

  ghost predicate Legal(s: Setup, log: Log) {
    log == [] || (Legal(s, Init(log)) && Enabled(s, Present(Init(log)), Final(log)))
  }

  lemma {:induction false} LogStep(s: Setup, log: Log, a: Action)
    ensures Present(log + [a]) == Next(Present(log), a)
    ensures Trace(s, log + [a]) == Trace(s, log) + Effects(s, a)
    ensures Legal(s, log + [a]) <==> Legal(s, log) && Enabled(s, Present(log), a)
  {
    hide Next, Effects, Enabled;
    assert Init(log + [a]) == log;
  }

  /** At most eight clients, none of them the control peer or the TAP device. */
  lemma {:induction false} PresentOk(s: Setup, log: Log)
    requires Legal(s, log)
    ensures |Present(log)| <= MAX_CLIENTS && s.link.fd !in Present(log) && s.tap !in Present(log)
  {
    if log != [] {
      PresentOk(s, Init(log));
      var before, after := Present(Init(log)), Present(log);
      if Final(log).Joined? {
        assert after == before + {Final(log).fd};
      } else {
        Fewer(after, before);
      }
    }
  }

  lemma {:induction false} Fewer(a: set<int>, b: set<int>)
    requires a <= b
    ensures |a| <= |b|
  {
    assert b == a + (b - a);
  }

  // -------------------------------------------------------------------------
  // What the trace says about frames
  // -------------------------------------------------------------------------

  /** The frame messages sent to a descriptor. */
  function FramesTo(es: seq<Event>, fd: int): seq<Msg> {
    if es == [] then [] else FramesTo(es[..|es| - 1], fd) + FrameTo(es[|es| - 1], fd)
  }

  function FrameTo(e: Event, fd: int): seq<Msg> {
    if e.Sent? && e.fd == fd && e.msg.typ == MSG_TAP_FRAME then [e.msg] else []
  }

  /** The messages that carry the frames of 14 to mtu + 18 octets read from the TAP device. */
  function TapFrames(s: Setup, es: seq<Event>): seq<Msg> {
    if es == [] then [] else TapFrames(s, es[..|es| - 1]) + TapFrameOf(s, es[|es| - 1])
  }

  function TapFrameOf(s: Setup, e: Event): seq<Msg> {
    if e.FrameIn? && 14 <= |e.frame| <= s.mtu + 18 then [FrameMsg(s.link.session, s.link.network, e.frame)] else []
  }

  /** The frames of this network received from anybody. */
  function PeerFrames(s: Setup, es: seq<Event>): seq<seq<byte>> {
    if es == [] then [] else PeerFrames(s, es[..|es| - 1]) + PeerFrameOf(s, es[|es| - 1])
  }

  function PeerFrameOf(s: Setup, e: Event): seq<seq<byte>> {
    if e.Received? && Brings(e.msg, s.link.network) then [e.msg.payload[6..]] else []
  }

  /** The frames offered to the TAP device. */
  function Offered(es: seq<Event>): seq<seq<byte>> {
    if es == [] then [] else Offered(es[..|es| - 1]) + OfferedBy(es[|es| - 1])
  }

  function OfferedBy(e: Event): seq<seq<byte>> {
    if e.FrameOut? || e.FrameRefused? then [e.frame] else []
  }

  lemma {:induction false} FramesConcat(a: seq<Event>, b: seq<Event>, fd: int)
    ensures FramesTo(a + b, fd) == FramesTo(a, fd) + FramesTo(b, fd)
  {
    hide FrameTo;
    if b == [] {
      assert a + b == a;
    } else {
      FramesConcat(a, b[..|b| - 1], fd);
      assert (a + b)[..|a + b| - 1] == a + b[..|b| - 1];
    }
  }

  lemma {:induction false} TapFramesConcat(s: Setup, a: seq<Event>, b: seq<Event>)
    ensures TapFrames(s, a + b) == TapFrames(s, a) + TapFrames(s, b)
  {
    hide TapFrameOf;
    if b == [] {
      assert a + b == a;
    } else {
      TapFramesConcat(s, a, b[..|b| - 1]);
      assert (a + b)[..|a + b| - 1] == a + b[..|b| - 1];
    }
  }

  lemma {:induction false} PeerFramesConcat(s: Setup, a: seq<Event>, b: seq<Event>)
    ensures PeerFrames(s, a + b) == PeerFrames(s, a) + PeerFrames(s, b)
  {
    hide PeerFrameOf;
    if b == [] {
      assert a + b == a;
    } else {
      PeerFramesConcat(s, a, b[..|b| - 1]);
      assert (a + b)[..|a + b| - 1] == a + b[..|b| - 1];
    }
  }

  lemma {:induction false} OfferedConcat(a: seq<Event>, b: seq<Event>)
    ensures Offered(a + b) == Offered(a) + Offered(b)
  {
    hide OfferedBy;
    if b == [] {
      assert a + b == a;
    } else {
      OfferedConcat(a, b[..|b| - 1]);
      assert (a + b)[..|a + b| - 1] == a + b[..|b| - 1];
    }
  }

  lemma {:induction false} FewSent(es: seq<Event>, fd: int)
    requires |es| <= 3
    ensures FramesTo(es, fd) == (if |es| > 0 then FrameTo(es[0], fd) else []) + (if |es| > 1 then FrameTo(es[1], fd) else [])
      + (if |es| > 2 then FrameTo(es[2], fd) else [])
  {
    hide FrameTo;
    if |es| > 0 {
      FewSent(es[..|es| - 1], fd);
    }
  }

  lemma {:induction false} FewTapFrames(s: Setup, es: seq<Event>)
    requires |es| <= 3
    ensures TapFrames(s, es) == (if |es| > 0 then TapFrameOf(s, es[0]) else []) + (if |es| > 1 then TapFrameOf(s, es[1]) else [])
      + (if |es| > 2 then TapFrameOf(s, es[2]) else [])
  {
    hide TapFrameOf;
    if |es| > 0 {
      FewTapFrames(s, es[..|es| - 1]);
    }
  }

  lemma {:induction false} FewPeerFrames(s: Setup, es: seq<Event>)
    requires |es| <= 3
    ensures PeerFrames(s, es) == (if |es| > 0 then PeerFrameOf(s, es[0]) else []) + (if |es| > 1 then PeerFrameOf(s, es[1]) else [])
      + (if |es| > 2 then PeerFrameOf(s, es[2]) else [])
  {
    hide PeerFrameOf;
    if |es| > 0 {
      FewPeerFrames(s, es[..|es| - 1]);
    }
  }

  lemma {:induction false} FewOffered(es: seq<Event>)
    requires |es| <= 3
    ensures Offered(es) == (if |es| > 0 then OfferedBy(es[0]) else []) + (if |es| > 1 then OfferedBy(es[1]) else [])
      + (if |es| > 2 then OfferedBy(es[2]) else [])
  {
    hide OfferedBy;
    if |es| > 0 {
      FewOffered(es[..|es| - 1]);
    }
  }

  /** A cast sends the frame once to each listed client that is not dropped, and to nobody else. */
  lemma {:induction false} CastOnce(order: seq<int>, dropped: set<int>, m: Msg, fd: int)
    requires m.typ == MSG_TAP_FRAME
    requires forall i, j | 0 <= i < j < |order| :: order[i] != order[j]
    ensures FramesTo(Casts(order, dropped, m), fd) == if fd in order && fd !in dropped then [m] else []
  {
    if order != [] {
      var n := |order| - 1;
      hide FramesTo, Cast;
      LastApart(order, fd);
      OneCast(order[n], dropped, m, fd);
      InitDistinct(order);
      CastOnce(order[..n], dropped, m, fd);
      var before, last := Casts(order[..n], dropped, m), Cast(order[n], dropped, m);
      assert Casts(order, dropped, m) == before + last;
      hide Casts;
      FramesConcat(before, last, fd);
    }
  }

  lemma {:induction false} InitDistinct(order: seq<int>)
    requires order != [] && forall i, j | 0 <= i < j < |order| :: order[i] != order[j]
    ensures var init := order[..|order| - 1];
      forall i, j | 0 <= i < j < |init| :: init[i] != init[j]
  {
  }

  lemma {:induction false} LastApart(order: seq<int>, fd: int)
    requires order != [] && forall i, j | 0 <= i < j < |order| :: order[i] != order[j]
    ensures var n := |order| - 1;
      order[n] !in order[..n] && (fd in order <==> fd in order[..n] || fd == order[n])
  {
  }

  lemma {:induction false} OneCast(to: int, dropped: set<int>, m: Msg, fd: int)
    requires m.typ == MSG_TAP_FRAME
    ensures FramesTo(Cast(to, dropped, m), fd) == if to == fd && fd !in dropped then [m] else []
  {
    FewSent(Cast(to, dropped, m), fd);
    hide FramesTo;
  }

  lemma {:induction false} CastSilent(s: Setup, order: seq<int>, dropped: set<int>, m: Msg)
    ensures var es := Casts(order, dropped, m);
      TapFrames(s, es) == [] && PeerFrames(s, es) == [] && Offered(es) == []
  {
    if order != [] {
      var before, last := Casts(order[..|order| - 1], dropped, m), Cast(order[|order| - 1], dropped, m);
      CastSilent(s, order[..|order| - 1], dropped, m);
      FewTapFrames(s, last);
      FewPeerFrames(s, last);
      FewOffered(last);
      TapFramesConcat(s, before, last);
      PeerFramesConcat(s, before, last);
      OfferedConcat(before, last);
      hide TapFrames, PeerFrames, Offered;
    }
  }

  // -------------------------------------------------------------------------
  // Single actions
  // -------------------------------------------------------------------------

  /** The list of clients that an action offers a frame to. */
  function OrderOf(a: Action): seq<int> {
    if a.FromTap? || a.FromControl? || a.FromClient? then a.order else []
  }

  function DroppedBy(a: Action): set<int> {
    if a.FromTap? || a.FromControl? || a.FromClient? then a.dropped else {}
  }

  function CastMsg(s: Setup, a: Action): Msg {
    FrameMsg(0, s.link.network, if a.FromTap? || a.FromControl? || a.FromClient? then a.frame else [])
  }

  /** What an action makes visible before it offers anything to clients. */
  function Prelude(s: Setup, a: Action): seq<Event> {
    match a
    case FromTap(frame, _, _) => [FrameIn(s.tap, frame), Sent(s.link.fd, FrameMsg(s.link.session, s.link.network, frame))]
    case FromControl(raw, frame, _, _) => [Received(s.link.fd, raw), FrameOut(s.tap, frame)]
    case FromClient(fd, raw, frame, _, _) => [Received(fd, raw), FrameOut(s.tap, frame)]
    case _ => Effects(s, a)
  }

  lemma {:induction false} EffectsParts(s: Setup, a: Action)
    ensures Effects(s, a) == Prelude(s, a) + Casts(OrderOf(a), DroppedBy(a), CastMsg(s, a))
  {
  }

  /** The message that an action owes to a descriptor: everyone but the sender and the control peer gets the relayed ones. */
  function Owed(s: Setup, a: Action, fd: int): seq<Msg> {
    match a
    case FromTap(frame, _, _) => [FrameMsg(if fd == s.link.fd then s.link.session else 0, s.link.network, frame)]
    case FromControl(_, frame, _, _) => if fd == s.link.fd then [] else [FrameMsg(0, s.link.network, frame)]
    case FromClient(from, _, frame, _, _) => if fd == s.link.fd || fd == from then [] else [FrameMsg(0, s.link.network, frame)]
    case _ => []
  }

  lemma {:induction false} PreludeSends(s: Setup, a: Action, fd: int)
    ensures FramesTo(Prelude(s, a), fd) == if a.FromTap? && fd == s.link.fd then Owed(s, a, fd) else []
  {
    hide TapFrameLayout, ParseTapFrame, FramesTo;
    FewSent(Prelude(s, a), fd);
  }

  lemma {:induction false} PreludeOffers(s: Setup, present: set<int>, a: Action)
    requires Enabled(s, present, a)
    ensures Offered(Prelude(s, a)) == PeerFrames(s, Prelude(s, a))
    ensures TapFrames(s, Prelude(s, a)) == if a.FromTap? then [FrameMsg(s.link.session, s.link.network, a.frame)] else []
  {
    hide ParseTapFrame, TapFrameLayout, Offered, PeerFrames, TapFrames, Lists, Admitted, Brings;
    if a.FromControl? || a.FromClient? || a.Answer? {
      BringsExactly(a.raw, s.link.network);
    } else if a.Lost? && a.heard.Some? {
      BringsExactly(a.heard.value, s.link.network);
    }
    FewOffered(Prelude(s, a));
    FewPeerFrames(s, Prelude(s, a));
    FewTapFrames(s, Prelude(s, a));
  }

  /** An action sends a client what it owes to it, unless the client is dropped, and strangers nothing. */
  lemma {:induction false} EffectsSend(s: Setup, present: set<int>, a: Action, fd: int)
    requires Enabled(s, present, a) && fd != s.link.fd
    ensures FramesTo(Effects(s, a), fd) == if fd in present && fd !in DroppedBy(a) then Owed(s, a, fd) else []
  {
    hide TapFrameLayout, ParseTapFrame, Admitted, FramesTo, Effects, Prelude, Casts;
    EffectsParts(s, a);
    PreludeSends(s, a, fd);
    FramesConcat(Prelude(s, a), Casts(OrderOf(a), DroppedBy(a), CastMsg(s, a)), fd);
    CastOnce(OrderOf(a), DroppedBy(a), CastMsg(s, a), fd);
  }

  /** The control peer is sent the frames from the TAP device and nothing else. */
  lemma {:induction false} EffectsSendControl(s: Setup, present: set<int>, a: Action)
    requires Enabled(s, present, a) && s.link.fd !in present
    ensures FramesTo(Effects(s, a), s.link.fd) == TapFrames(s, Effects(s, a)) == Owed(s, a, s.link.fd)
    ensures Offered(Effects(s, a)) == PeerFrames(s, Effects(s, a))
  {
    hide TapFrameLayout, ParseTapFrame, Admitted, FramesTo, TapFrames, PeerFrames, Offered, Effects, Prelude, Casts;
    var casts := Casts(OrderOf(a), DroppedBy(a), CastMsg(s, a));
    EffectsParts(s, a);
    PreludeSends(s, a, s.link.fd);
    PreludeOffers(s, present, a);
    FramesConcat(Prelude(s, a), casts, s.link.fd);
    CastOnce(OrderOf(a), DroppedBy(a), CastMsg(s, a), s.link.fd);
    TapFramesConcat(s, Prelude(s, a), casts);
    PeerFramesConcat(s, Prelude(s, a), casts);
    OfferedConcat(Prelude(s, a), casts);
    CastSilent(s, OrderOf(a), DroppedBy(a), CastMsg(s, a));
  }

  // -------------------------------------------------------------------------
  // Whole runs
  // -------------------------------------------------------------------------

  /**
   * The control peer gets, in order and once each, exactly the frames of 14 to
   * mtu + 18 octets read from the TAP device; the TAP device gets exactly the
   * valid frames received from the control peer and the clients. Nothing is echoed.
   */
  lemma {:induction false} HubForwards(s: Setup, log: Log)
    requires Legal(s, log)
    ensures FramesTo(Trace(s, log), s.link.fd) == TapFrames(s, Trace(s, log))
    ensures Offered(Trace(s, log)) == PeerFrames(s, Trace(s, log))
  {
    if log != [] {
      hide FramesTo, TapFrames, PeerFrames, Offered, Effects, Enabled;
      var before, es := Trace(s, Init(log)), Effects(s, Final(log));
      HubForwards(s, Init(log));
      PresentOk(s, Init(log));
      EffectsSendControl(s, Present(Init(log)), Final(log));
      FramesConcat(before, es, s.link.fd);
      TapFramesConcat(s, before, es);
      PeerFramesConcat(s, before, es);
      OfferedConcat(before, es);
    }
  }

  /** The part of a run since a client last joined. */
  function Since(log: Log, fd: int): Log {
    if log == [] || (Final(log).Joined? && Final(log).fd == fd) then [] else Since(Init(log), fd) + [Final(log)]
  }

  function OwedAll(s: Setup, log: Log, fd: int): seq<Msg> {
    if log == [] then [] else OwedAll(s, Init(log), fd) + Owed(s, Final(log), fd)
  }

  lemma {:induction false} OwedStep(s: Setup, log: Log, a: Action, fd: int)
    ensures OwedAll(s, log + [a], fd) == OwedAll(s, log, fd) + Owed(s, a, fd)
    ensures Trace(s, log + [a]) == Trace(s, log) + Effects(s, a)
  {
    hide Owed, Effects;
    assert Init(log + [a]) == log;
  }

  /**
   * A client that is still there has been sent, in order and once each, every
   * frame that came since it joined from the TAP device, the control peer or
   * another client, and none of its own.
   */
  lemma {:induction false} ClientGetsAll(s: Setup, log: Log, fd: int)
    requires Legal(s, log) && fd in Present(log)
    ensures FramesTo(Trace(s, Since(log, fd)), fd) == OwedAll(s, Since(log, fd), fd)
  {
    var init, a := Init(log), Final(log);
    if !(a.Joined? && a.fd == fd) {
      PresentOk(s, log);
      StillPresent(Present(init), a, fd);
      hide FramesTo, Effects, Enabled, Owed, OwedAll, Next;
      ClientGetsAll(s, init, fd);
      EffectsSend(s, Present(init), a, fd);
      OwedStep(s, Since(init, fd), a, fd);
      FramesConcat(Trace(s, Since(init, fd)), Effects(s, a), fd);
    }
  }

  lemma {:induction false} StillPresent(present: set<int>, a: Action, fd: int)
    requires fd in Next(present, a) && !(a.Joined? && a.fd == fd)
    ensures fd in present && fd !in DroppedBy(a)
  {
  }

  // -------------------------------------------------------------------------
  // Frame sizes
  // -------------------------------------------------------------------------

  /** A frame that was received as a message fits the send buffer, and the next hop receives it too. */
  lemma {:induction false} ReceivedFramesFit(raw: Msg, network: u32, frame: Wire.Text, session: u32)
    requires Receivable(raw, PAYLOAD_MAX_CONTROL) && Carries(raw, network, frame)
    ensures |TapFrameLayout(TapFrame(network, frame))| <= SEND_MAX
    ensures Receivable(FrameMsg(session, network, frame), PAYLOAD_MAX_CONTROL)
    ensures FrameMsg(session, network, frame).payload == raw.payload
  {
    TapFrameExact(raw.payload, TapFrame(network, frame));
  }

  /**
   * So does every frame read from the TAP device; but peers take all of them exactly
   * if the mtu is at most 1408. A frame cut off by the read buffer is always skipped.
   */
  lemma {:induction false} TapFramesFit(s: Setup)
    ensures forall n | n >= TAP_READ_MAX :: !SizeOk(s, n)
    ensures forall frame: Wire.Text | SizeOk(s, |frame|) :: |TapFrameLayout(TapFrame(s.link.network, frame))| <= SEND_MAX
    ensures (forall frame: Wire.Text | SizeOk(s, |frame|) ::
               Receivable(FrameMsg(s.link.session, s.link.network, frame), PAYLOAD_MAX_CONTROL))
      <==> s.mtu <= 1408
  {
    if s.mtu > 1408 {
      var frame: Wire.Text := seq(s.mtu + ETHERNET_EXTRA, _ => 0);
      assert SizeOk(s, |frame|);
      assert !Receivable(FrameMsg(s.link.session, s.link.network, frame), PAYLOAD_MAX_CONTROL);
    }
  }
}
