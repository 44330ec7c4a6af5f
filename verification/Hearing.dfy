/**
 * What the server makes of a session's octets, and what a stream's user learns
 * from them, when a refusal that could not be sent is ignored.
 */
module Hearing {
  import opened Accounting
  import opened Address
  import opened Bytes
  import opened Delivery
  import opened Frame
  import opened Handshake
  import opened Kernel
  import opened Options
  import opened Session
  import opened StreamRuns
  import opened Streams
  import opened Wire
  import ControlLoop
  import Relay
  import TapHub

  const CAP := PAYLOAD_MAX_CONTROL

  // -------------------------------------------------------------------------
  // Putting runs together
  // -------------------------------------------------------------------------

  /** The only failures are those of eight-octet CLOSE messages. */
  ghost predicate FailsOnlyCloses(es: seq<Event>, fd: int) {
    forall i | 0 <= i < |es| && Fails(es[i], fd) :: es[i].msg.typ == MSG_SOCKS_STREAM_CLOSE && |es[i].msg.payload| == CLOSE_SIZE
  }

  /** Hearable, and nothing but CLOSE messages fails without consequences. */
  ghost predicate Fair(es: seq<Event>, fd: int) {
    Hearable(es, fd, CAP) && IgnoresOnlyCloses(es, fd)
  }

  lemma {:induction false} HearableConcat(a: seq<Event>, b: seq<Event>, fd: int)
    requires Hearable(a, fd, CAP) && Hearable(b, fd, CAP)
    ensures Hearable(a + b, fd, CAP)
  {
    hide Receivable;
  }

  lemma {:induction false} FairAfter(a: seq<Event>, b: seq<Event>, fd: int)
    requires Hearable(a, fd, CAP) && FailsOnlyCloses(a, fd) && Fair(b, fd)
    ensures Fair(a + b, fd)
    ensures Clean(a, fd) && StopsAtFailure(b, fd) ==> StopsAtFailure(a + b, fd)
  {
    HearableConcat(a, b, fd);
    hide Hearable;
    forall i, j | 0 <= i < j < |a + b| && Fails((a + b)[i], fd) && Attempts((a + b)[j], fd)
      ensures (a + b)[i].msg.typ == MSG_SOCKS_STREAM_CLOSE && |(a + b)[i].msg.payload| == CLOSE_SIZE
    {
      if i >= |a| {
        assert Fails(b[i - |a|], fd) && Attempts(b[j - |a|], fd);
      }
    }
    if Clean(a, fd) && StopsAtFailure(b, fd) {
      forall i, j | 0 <= i < j < |a + b| && Fails((a + b)[i], fd)
        ensures !Attempts((a + b)[j], fd)
      {
        assert i >= |a| ==> Fails(b[i - |a|], fd);
      }
    }
  }

  lemma {:induction false} FairBefore(a: seq<Event>, b: seq<Event>, fd: int)
    requires Fair(a, fd) && Mute(b, fd)
    ensures Fair(a + b, fd)
    ensures StopsAtFailure(a, fd) ==> StopsAtFailure(a + b, fd)
  {
    hide Receivable;
  }

  lemma {:induction false} CleanIsFair(es: seq<Event>, fd: int)
    requires Hearable(es, fd, CAP) && Clean(es, fd)
    ensures Fair(es, fd) && FailsOnlyCloses(es, fd) && StopsAtFailure(es, fd)
  {
  }

  /** A run whose last event alone may be an attempt. */
  lemma {:induction false} LastIsFair(es: seq<Event>, fd: int)
    requires Hearable(es, fd, CAP) && forall i | 0 <= i < |es| - 1 :: !Attempts(es[i], fd)
    ensures Fair(es, fd) && StopsAtFailure(es, fd)
  {
  }

  // -------------------------------------------------------------------------
  // The control loop
  // -------------------------------------------------------------------------

  lemma {:induction false} CloseIsHearable(link: Link, id: u32, reason: u16, flags: u16)
    ensures Receivable(CloseMsg(link, id, reason, flags), CAP) && |CloseMsg(link, id, reason, flags).payload| == CLOSE_SIZE
  {
  }

  lemma {:induction false} DataIsHearable(link: Link, id: u32, data: seq<byte>)
    requires |data| <= READ_CHUNK
    ensures Receivable(DataMsg(link, id, data), CAP)
  {
  }

  lemma {:induction false} TestFrameIsHearable(m: Msg, network: u32)
    requires IsTestFrame(m, network)
    ensures Receivable(m, CAP)
  {
    TapFrameExact(m.payload, ParseTapFrame(m.payload).value);
  }

  lemma {:induction false} AsideIsHearable(link: Link, t: Table, es: seq<Event>)
    requires AsideOk(link, t, es)
    ensures Hearable(es, link.fd, CAP) && Clean(es, link.fd)
  {
    hide IsTestFrame;
    forall i | 0 <= i < |es| && Attempts(es[i], link.fd)
      ensures Receivable(es[i].msg, CAP)
    {
      if es[i].Sent? && es[i].msg != PingMsg(link) {
        TestFrameIsHearable(es[i].msg, link.network);
      }
    }
  }

  lemma {:induction false} EffectsAreHearable(link: Link, t: Table, a: Action)
    requires Enabled(link, t, a)
    ensures Hearable(Effects(link, t, a), link.fd, CAP) && FailsOnlyCloses(Effects(link, t, a), link.fd)
    ensures !((a.OpenUnreachable? || a.OpenFull?) && !a.told) ==> Clean(Effects(link, t, a), link.fd)
  {
    assert a.Aside? ==> AsideOk(link, t, a.events) && Effects(link, t, a) == a.events;
    hide Effects, Enabled;
    match a
    case OpenUnreachable(_, _, _) => RefusalIsHearable(link, t, a);
    case OpenFull(_, _, _, _) => RefusalIsHearable(link, t, a);
    case TargetData(_, _) => OutputIsHearable(link, t, a);
    case TargetFin(_) => OutputIsHearable(link, t, a);
    case Aside(es) => AsideIsHearable(link, t, es);
    case _ => ReceiptIsMute(link, t, a);
  }

  lemma {:induction false} RefusalIsHearable(link: Link, t: Table, a: Action)
    requires a.OpenUnreachable? || a.OpenFull?
    ensures Hearable(Effects(link, t, a), link.fd, CAP) && FailsOnlyCloses(Effects(link, t, a), link.fd)
    ensures a.told ==> Clean(Effects(link, t, a), link.fd)
  {
    var es := Effects(link, t, a);
    var n := |es| - 1;
    var reason := if a.OpenFull? then REASON_RESOURCE_LIMITED else REASON_TARGET_CONNECT_FAILED;
    CloseIsHearable(link, a.id, reason, 0);
    assert Mute(es[..n], link.fd) && es[n] == CloseAttempt(link, a.id, reason, 0, a.told);
    hide Effects, CloseMsg, Receivable;
    assert forall i | 0 <= i < n :: es[i] == es[..n][i];
  }

  lemma {:induction false} OutputIsHearable(link: Link, t: Table, a: Action)
    requires (a.TargetData? || a.TargetFin?) && Enabled(link, t, a)
    ensures Hearable(Effects(link, t, a), link.fd, CAP) && Clean(Effects(link, t, a), link.fd)
  {
    if a.TargetData? {
      DataIsHearable(link, a.id, a.data);
    }
    CloseIsHearable(link, a.id, REASON_REMOTE_CLOSED, FLAG_FIN);
    hide CloseMsg, DataMsg, Receivable;
  }

  lemma {:induction false} ReceiptIsMute(link: Link, t: Table, a: Action)
    requires a.OpenAccepted? || a.ClientData? || a.ClientFin? || a.ClientAbort?
    ensures Hearable(Effects(link, t, a), link.fd, CAP) && Clean(Effects(link, t, a), link.fd)
  {
    hide Receivable;
  }

  /** Every refusal could be sent. */
  predicate AllTold(log: Log) {
    forall i | 0 <= i < |log| && (log[i].OpenUnreachable? || log[i].OpenFull?) :: log[i].told
  }

  lemma {:induction false} RunIsHearable(link: Link, log: Log)
    requires Legal(link, log)
    ensures Hearable(Trace(link, log), link.fd, CAP) && FailsOnlyCloses(Trace(link, log), link.fd)
    ensures AllTold(log) ==> Clean(Trace(link, log), link.fd)
  {
    if log != [] {
      var init, a := Init(log), Final(log);
      RunIsHearable(link, init);
      EffectsAreHearable(link, After(init), a);
      hide Effects, Enabled, Hearable, Receivable;
      HearableConcat(Trace(link, init), Effects(link, After(init), a), link.fd);
      assert log[|log| - 1] == a;
    }
  }

  lemma {:induction false} HaltIsFair(link: Link, t: Table, pending: seq<Event>)
    requires pending == [] || ControlLoop.HaltedBy(link, t, pending)
    ensures Fair(pending, link.fd) && StopsAtFailure(pending, link.fd)
  {
    hide CloseMsg, DataMsg, Receivable, IsTestFrame, ControlLoop.Unacceptable, ControlLoop.CutShort;
    forall i | 0 <= i < |pending| && Attempts(pending[i], link.fd)
      ensures i == |pending| - 1 && Receivable(pending[i].msg, CAP)
    {
      if ControlLoop.TestUnsent(link, pending) {
        TestFrameIsHearable(pending[i].msg, link.network);
      } else if |pending| == 2 {
        var id :| ControlLoop.NotPassedOn(link, t, id, pending[0], pending[1]);
        CloseIsHearable(link, id, REASON_REMOTE_CLOSED, FLAG_FIN);
        if pending[0].Read? {
          DataIsHearable(link, id, pending[0].bytes);
        }
      } else {
        PingIsHearable(link);
      }
    }
    LastIsFair(pending, link.fd);
  }

  lemma {:induction false} PingIsHearable(link: Link)
    ensures Receivable(PingMsg(link), CAP)
  {
  }

  lemma {:induction false} ControlIsFair(link: Link, goal: Goal, direct: bool, rc: int, run: ControlLoop.Run)
    requires ControlLoop.RunOk(link, goal, direct, rc, run)
    ensures Fair(ControlLoop.EventsOf(link, direct, run), link.fd)
    ensures AllTold(run.log) ==> StopsAtFailure(ControlLoop.EventsOf(link, direct, run), link.fd)
  {
    var opening, trace := ControlLoop.Opening(link, direct, run.listener, run.pinged), Trace(link, run.log);
    OpeningIsFair(link, direct, run.listener, run.pinged);
    assert !run.pinged ==> trace == [];
    hide ControlLoop.Opening, Fair, StopsAtFailure, Clean, FailsOnlyCloses, Hearable, Legal, ControlLoop.HaltedBy, AllTold,
      Trace, Mute, Count, ControlLoop.Concluded, OnlyCloses;
    ClosingsAreMute(run.closings, link.fd);
    if run.pinged {
      RunIsHearable(link, run.log);
      HaltIsFair(link, After(run.log), run.pending);
      FairAfter(trace, run.pending, link.fd);
      CleanIsFair(opening, link.fd);
      FairAfter(opening, trace + run.pending, link.fd);
      assert opening + trace + run.pending == opening + (trace + run.pending);
      FairBefore(opening + trace + run.pending, run.closings, link.fd);
    } else {
      assert opening + trace + run.pending == opening;
      FairBefore(opening, run.closings, link.fd);
    }
  }

  lemma {:induction false} OpeningIsFair(link: Link, direct: bool, listener: Option<int>, pinged: bool)
    ensures var opening := ControlLoop.Opening(link, direct, listener, pinged);
      && Hearable(opening, link.fd, CAP) && Fair(opening, link.fd) && StopsAtFailure(opening, link.fd)
      && (pinged ==> Clean(opening, link.fd))
  {
    PingIsHearable(link);
    hide PingMsg, Receivable;
    LastIsFair(ControlLoop.Opening(link, direct, listener, pinged), link.fd);
  }

  lemma {:induction false} ClosingsAreMute(closings: seq<Event>, fd: int)
    requires OnlyCloses(closings)
    ensures Mute(closings, fd)
  {
  }

  // -------------------------------------------------------------------------
  // The relay hub
  // -------------------------------------------------------------------------

  const FAIR_MTU := 1408

  lemma {:induction false} FrameIsHearable(s: Relay.Setup, session: u32, frame: Wire.Text)
    requires s.mtu <= FAIR_MTU && Relay.SizeOk(s, |frame|)
    ensures Receivable(Relay.FrameMsg(session, s.link.network, frame), CAP)
  {
  }

  lemma {:induction false} CastsAreMute(order: seq<int>, dropped: set<int>, m: Msg, fd: int)
    requires fd !in order
    ensures Mute(Relay.Casts(order, dropped, m), fd)
  {
    if order != [] {
      CastsAreMute(order[..|order| - 1], dropped, m, fd);
    }
  }

  lemma {:induction false} RelayIsHearable(s: Relay.Setup, present: set<int>, a: Relay.Action)
    requires Relay.Enabled(s, present, a) && s.link.fd !in present && s.mtu <= FAIR_MTU
    ensures Hearable(Relay.Effects(s, a), s.link.fd, CAP) && Clean(Relay.Effects(s, a), s.link.fd)
  {
    if a.FromTap? {
      FrameIsHearable(s, s.link.session, a.frame);
    }
    PingIsHearable(s.link);
    Relay.EffectsParts(s, a);
    CastsAreMute(Relay.OrderOf(a), Relay.DroppedBy(a), Relay.CastMsg(s, a), s.link.fd);
    hide Receivable, Relay.Effects, Relay.Casts, Relay.FrameMsg, ParseTapFrame, PingMsg;
  }

  lemma {:induction false} HubRunIsHearable(s: Relay.Setup, log: Relay.Log)
    requires Relay.Legal(s, log) && s.mtu <= FAIR_MTU
    ensures Hearable(Relay.Trace(s, log), s.link.fd, CAP) && Clean(Relay.Trace(s, log), s.link.fd)
  {
    if log != [] {
      var init, a := Relay.Init(log), Relay.Final(log);
      HubRunIsHearable(s, init);
      Relay.PresentOk(s, init);
      RelayIsHearable(s, Relay.Present(init), a);
      hide Relay.Effects, Relay.Enabled, Hearable, Receivable;
      HearableConcat(Relay.Trace(s, init), Relay.Effects(s, a), s.link.fd);
    }
  }

  lemma {:induction false} HubHaltIsFair(s: Relay.Setup, pending: seq<Event>)
    requires TapHub.HaltedBy(s, pending) && s.mtu <= FAIR_MTU
    ensures Fair(pending, s.link.fd) && StopsAtFailure(pending, s.link.fd)
  {
    if |pending| == 2 && pending[0].FrameIn? {
      FrameIsHearable(s, s.link.session, pending[0].frame);
    }
    PingIsHearable(s.link);
    hide Receivable, Relay.FrameMsg, PingMsg, Relay.Carries, IsFrameOf;
    LastIsFair(pending, s.link.fd);
  }

  lemma {:induction false} HubOpeningIsFair(s: Relay.Setup, direct: bool, run: TapHub.Run)
    requires TapHub.RunOk(s, direct, run)
    ensures var opening := TapHub.Opening(s, direct, run);
      && Hearable(opening, s.link.fd, CAP) && Fair(opening, s.link.fd) && StopsAtFailure(opening, s.link.fd)
      && (run.pinged ==> Clean(opening, s.link.fd))
  {
    PingIsHearable(s.link);
    hide PingMsg, Receivable;
    LastIsFair(TapHub.Opening(s, direct, run), s.link.fd);
  }

  lemma {:induction false} TapIsFair(s: Relay.Setup, direct: bool, run: TapHub.Run)
    requires TapHub.RunOk(s, direct, run) && s.mtu <= FAIR_MTU
    ensures Fair(TapHub.EventsOf(s, direct, run), s.link.fd) && StopsAtFailure(TapHub.EventsOf(s, direct, run), s.link.fd)
  {
    var opening, trace := TapHub.Opening(s, direct, run), Relay.Trace(s, run.log);
    HubOpeningIsFair(s, direct, run);
    hide TapHub.Opening, Fair, StopsAtFailure, Clean, FailsOnlyCloses, Hearable, Relay.Legal, TapHub.HaltedBy;
    ClosingsAreMute(run.closings, s.link.fd);
    if run.pinged {
      HubRunIsHearable(s, run.log);
      HubHaltIsFair(s, run.pending);
      CleanIsFair(trace, s.link.fd);
      FairAfter(trace, run.pending, s.link.fd);
      CleanIsFair(opening, s.link.fd);
      FairAfter(opening, trace + run.pending, s.link.fd);
      assert opening + trace + run.pending == opening + (trace + run.pending);
      FairBefore(opening + trace + run.pending, run.closings, s.link.fd);
    } else {
      assert opening + trace + run.pending == opening;
      FairBefore(opening, run.closings, s.link.fd);
    }
  }

  // -------------------------------------------------------------------------
  // Whole sessions
  // -------------------------------------------------------------------------

  /** The parts of a session that could be misheard. */
  predicate RefusalsTold(e: Ended) {
    e.Connected? && e.served.Control? ==> AllTold(e.served.control.log)
  }

  predicate FramesFit(e: Ended) {
    e.Connected? && e.served.Tap? ==> e.served.setup.mtu <= FAIR_MTU
  }

  lemma {:induction false} GreetingIsFair(who: Signer, fd: int, x: Exchange, n: nat)
    requires SignerOk(who) && n <= STEPS
    ensures Hearable(Greeting(who, fd, x)[..n], fd, CAP) && Clean(Greeting(who, fd, x)[..n], fd)
  {
    HelloSize(x.nonce);
    var server := if ServerHello(x).Some? then ServerHello(x).value.nonce else x.nonce;
    AuthSize(who, x.nonce, who.mac(Challenge(who, server, x.nonce)));
    assert Receivable(HelloMsg(x.nonce), CAP) && Receivable(AuthMsg(who, server, x.nonce), CAP);
    hide Receivable, HelloMsg, AuthMsg, ServerHello;
  }

  lemma {:induction false} CauseIsFair(who: Signer, fd: int, x: Exchange, n: nat, cause: seq<Event>, rc: int)
    requires SignerOk(who) && FailedOk(who, fd, x, n, cause, rc)
    ensures Fair(cause, fd) && StopsAtFailure(cause, fd)
  {
    HelloSize(x.nonce);
    if ServerHello(x).Some? {
      var server := ServerHello(x).value.nonce;
      AuthSize(who, x.nonce, who.mac(Challenge(who, server, x.nonce)));
      assert Receivable(AuthMsg(who, server, x.nonce), CAP);
    }
    assert Receivable(HelloMsg(x.nonce), CAP);
    hide Receivable, HelloMsg, AuthMsg, ServerHello;
    LastIsFair(cause, fd);
  }

  /**
   * For every session of a node: the server hears exactly the messages sent,
   * whatever part of the failed ones went out, if and only if nothing is attempted
   * after a failure; and that is so if every refusal could be sent. In TAP mode
   * it holds for every mtu up to 1408.
   */
  lemma {:induction false} SessionIsHeard(node: Node, goal: Goal, tapMode: bool, rc: int, e: Ended)
    requires NodeOk(node) && e.Connected? && EndedOk(node, goal, tapMode, rc, e) && FramesFit(e)
    ensures Shaped(e) && Hearable(EventsOf(node, e), e.fd, CAP)
    ensures var es := EventsOf(node, e);
      (forall cut: nat -> nat :: DeframeAll(Octets(es, e.fd, cut), CAP) == SentOn(es, e.fd)) <==> StopsAtFailure(es, e.fd)
    ensures RefusalsTold(e) ==> StopsAtFailure(EventsOf(node, e), e.fd)
  {
    hide ControlLoop.RunOk, TapHub.RunOk, Fair, StopsAtFailure, Hearable, FailsOnlyCloses, Clean, Greeting, AllTold;
    var dial := [Opened(e.fd), Dialed(e.fd, e.host, e.port)];
    var greeting := Greeting(node.who, e.fd, e.x)[..e.steps];
    GreetingIsFair(node.who, e.fd, e.x, e.steps);
    DialIsMute(e.fd, e.host, e.port);
    RestIsFair(node, goal, tapMode, rc, e);
    SessionJoined(e.fd, dial, greeting, e.cause + AfterExchange(e.fd, e.x, e.served), [Closed(e.fd)]);
    var es := EventsOf(node, e);
    assert es == dial + greeting + (e.cause + AfterExchange(e.fd, e.x, e.served)) + [Closed(e.fd)];
    FairlyHeard(es, e.fd);
  }

  lemma {:induction false} FairlyHeard(es: seq<Event>, fd: int)
    requires Fair(es, fd)
    ensures Hearable(es, fd, CAP)
    ensures (forall cut: nat -> nat :: DeframeAll(Octets(es, fd, cut), CAP) == SentOn(es, fd)) <==> StopsAtFailure(es, fd)
  {
    HeardExactly(es, fd, CAP);
  }

  lemma {:induction false} DialIsMute(fd: int, host: string, port: string)
    ensures Mute([Opened(fd), Dialed(fd, host, port)], fd) && Mute([Closed(fd)], fd)
  {
  }

  lemma {:induction false} SessionJoined(fd: int, dial: seq<Event>, greeting: seq<Event>, rest: seq<Event>, end: seq<Event>)
    requires Mute(dial, fd) && Hearable(greeting, fd, CAP) && Clean(greeting, fd) && Fair(rest, fd) && Mute(end, fd)
    ensures Fair(dial + greeting + rest + end, fd)
    ensures StopsAtFailure(rest, fd) ==> StopsAtFailure(dial + greeting + rest + end, fd)
  {
    MuteIsClean(dial, fd);
    hide Fair, StopsAtFailure, Hearable, FailsOnlyCloses, Clean, Mute;
    CleanIsFair(dial, fd);
    CleanIsFair(greeting, fd);
    FairAfter(greeting, rest, fd);
    FairAfter(dial, greeting + rest, fd);
    assert dial + greeting + rest == dial + (greeting + rest);
    FairBefore(dial + greeting + rest, end, fd);
  }

  lemma {:induction false} MuteIsClean(es: seq<Event>, fd: int)
    requires Mute(es, fd)
    ensures Hearable(es, fd, CAP) && Clean(es, fd)
  {
  }

  lemma {:induction false} RestIsFair(node: Node, goal: Goal, tapMode: bool, rc: int, e: Ended)
    requires NodeOk(node) && e.Connected? && EndedOk(node, goal, tapMode, rc, e) && FramesFit(e)
    ensures Shaped(e)
    ensures var rest := e.cause + AfterExchange(e.fd, e.x, e.served);
      Fair(rest, e.fd) && (RefusalsTold(e) ==> StopsAtFailure(rest, e.fd))
  {
    hide ControlLoop.RunOk, TapHub.RunOk, Fair, StopsAtFailure, FailedOk, AllTold, ControlLoop.EventsOf, TapHub.EventsOf,
      ServerHello, ParseAuthOk, ParseConfig, SplitAddr;
    var rest := e.cause + AfterExchange(e.fd, e.x, e.served);
    match e.served
    case Nothing =>
      assert rest == e.cause;
      if e.cause == [] {
        NothingIsFair(e.fd);
      } else {
        CauseIsFair(node.who, e.fd, e.x, e.steps, e.cause, rc);
      }
    case Control(run) =>
      var link, direct := LinkOf(e.fd, e.x), Direct(Settings(e.x).value);
      ControlIsFair(link, goal, direct, rc, run);
      assert rest == ControlLoop.EventsOf(link, direct, run);
    case Tap(s, run) =>
      var direct := Direct(Settings(e.x).value);
      TapIsFair(s, direct, run);
      assert rest == TapHub.EventsOf(s, direct, run);
  }

  lemma {:induction false} NothingIsFair(fd: int)
    ensures Fair([], fd) && StopsAtFailure([], fd)
  {
  }

  // -------------------------------------------------------------------------
  // Single streams
  // -------------------------------------------------------------------------

  /** What a sequence of messages says about a stream. */
  function Read(ms: seq<Msg>, id: u32): seq<Sym> {
    if ms == [] then [] else Read(ms[..|ms| - 1], id) + Heads(ms[|ms| - 1], id)
  }

  ghost predicate SendsOnlyOn(es: seq<Event>, fd: int) {
    forall i | 0 <= i < |es| && es[i].Sent? :: es[i].fd == fd
  }

  lemma {:induction false} ToldIsRead(es: seq<Event>, fd: int, id: u32)
    requires SendsOnlyOn(es, fd)
    ensures Told(es, id) == Read(SentOn(es, fd), id)
  {
    if es != [] {
      hide SymOf, Read;
      var n := |es| - 1;
      ToldIsRead(es[..n], fd, id);
      var before := Told(es[..n], id);
      assert before + [] == before && SentOn(es[..n], fd) + [] == SentOn(es[..n], fd);
      if es[n].Sent? {
        ReadSnoc(SentOn(es[..n], fd), es[n].msg, id);
        assert Told(es, id) == before + Heads(es[n].msg, id);
      }
    }
  }

  lemma {:induction false} ReadSnoc(ms: seq<Msg>, m: Msg, id: u32)
    ensures Read(ms + [m], id) == Read(ms, id) + Heads(m, id)
  {
    assert (ms + [m])[..|ms|] == ms;
  }

  lemma {:induction false} SendsOnlyOnLink(link: Link, log: Log)
    requires Legal(link, log)
    ensures SendsOnlyOn(Trace(link, log), link.fd)
  {
    if log != [] {
      SendsOnlyOnLink(link, Init(log));
      ActionSendsOnLink(link, After(Init(log)), Final(log));
      hide Effects, Enabled;
    }
  }

  lemma {:induction false} ActionSendsOnLink(link: Link, t: Table, a: Action)
    requires Enabled(link, t, a)
    ensures SendsOnlyOn(Effects(link, t, a), link.fd)
  {
    hide CloseMsg, DataMsg, IsOpen, IsClose, ParseSocksData, IsTestFrame;
  }

  lemma {:induction false} SinceIsLast(link: Link, log: Log, id: u32) returns (before: seq<Event>)
    ensures Trace(link, log) == before + EventsSince(link, log, id)
  {
    if log == [] || Accepts(Final(log), id) {
      before := Trace(link, log);
    } else {
      before := SinceIsLast(link, Init(log), id);
    }
  }

  /**
   * In a run whose refusals could all be sent, the octets say about a stream what
   * the trace does, so the grammar and the fidelity of its output are what the
   * server decodes: the output since the stream was accepted comes last.
   */
  lemma {:induction false} StreamIsHeard(link: Link, log: Log, id: u32, cut: nat -> nat)
    requires Legal(link, log) && AllTold(log)
    ensures Hearable(Trace(link, log), link.fd, CAP)
    ensures var heard := Read(DeframeAll(Octets(Trace(link, log), link.fd, cut), CAP), id);
      var output := Told(EventsSince(link, log, id), id);
      heard == Told(Trace(link, log), id) && |output| <= |heard| && heard[|heard| - |output|..] == output
  {
    hide Told, Read, SentOn, Octets, DeframeAll, Legal, Trace, EventsSince, Effects, Enabled;
    var es := Trace(link, log);
    RunIsHearable(link, log);
    CleanIsFair(es, link.fd);
    StoppedIsHeard(es, link.fd, cut, CAP);
    SendsOnlyOnLink(link, log);
    ToldIsRead(es, link.fd, id);
    var before := SinceIsLast(link, log, id);
    ToldConcat(before, EventsSince(link, log, id), id);
  }

  // -------------------------------------------------------------------------
  // A run that is misheard
  // -------------------------------------------------------------------------

  /**
   * After a refusal of which only the header went out the program goes on, and the
   * server takes the beginning of the next ping for the rest of the refusal: it
   * decodes an abort of stream 0x4e544150, and the ping is lost.
   */
  lemma {:induction false} UntoldRefusalMisleads(link: Link)
    ensures var raw := Msg(MSG_SOCKS_STREAM_OPEN, 0, SocksOpenLayout(SocksOpen(1, [0x61], 80)));
      var log := [OpenUnreachable(1, raw, false), Aside([Sent(link.fd, PingMsg(link))])];
      var es := Trace(link, log);
      && Legal(link, log) && Hearable(es, link.fd, CAP)
      && SentOn(es, link.fd) == [PingMsg(link)]
      && var heard := DeframeAll(Octets(es, link.fd, _ => HDR_SIZE), CAP);
         && |heard| == 1 && heard[0].typ == MSG_SOCKS_STREAM_CLOSE
         && ParseSocksClose(heard[0].payload) == Some(SocksClose(0x4e544150, 0x0108, 0))
  {
    var raw := Msg(MSG_SOCKS_STREAM_OPEN, 0, SocksOpenLayout(SocksOpen(1, [0x61], 80)));
    var first, ping := OpenUnreachable(1, raw, false), Sent(link.fd, PingMsg(link));
    var refusal := CloseMsg(link, 1, REASON_TARGET_CONNECT_FAILED, 0);
    SocksOpenExact(raw.payload, SocksOpen(1, [0x61], 80));
    RefusedFirst(link, raw, refusal);
    hide Effects, Enabled, Next, AsideOk, SocksOpenLayout, ParseSocksOpen, CloseMsg, Legal, Trace, Octets, SentOn, DeframeAll,
      ParseSocksClose, PingMsg, Part, Image;
    TwoActions(link, first, ping);
    RunIsHearable(link, [first, Aside([ping])]);
    FourEvents(Trace(link, [first, Aside([ping])]), link.fd, refusal, PingMsg(link));
    MisreadPing(link, refusal);
  }

  lemma {:induction false} RefusedFirst(link: Link, raw: Msg, refusal: Msg)
    requires IsOpen(raw, 1) && refusal == CloseMsg(link, 1, REASON_TARGET_CONNECT_FAILED, 0)
    ensures var first := OpenUnreachable(1, raw, false);
      && Enabled(link, map[], first) && Next(map[], first) == map[]
      && Effects(link, map[], first) == [Received(link.fd, raw), FailedFor(raw), Unsent(link.fd, refusal)]
    ensures AsideOk(link, map[], [Sent(link.fd, PingMsg(link))])
    ensures refusal.typ == MSG_SOCKS_STREAM_CLOSE && |refusal.payload| == CLOSE_SIZE && |PingMsg(link).payload| == 0
  {
    hide IsOpen, FailedFor;
  }

  lemma {:induction false} TwoActions(link: Link, first: Action, e: Event)
    requires Enabled(link, map[], first) && Next(map[], first) == map[] && AsideOk(link, map[], [e])
    ensures Legal(link, [first, Aside([e])])
    ensures Trace(link, [first, Aside([e])]) == Effects(link, map[], first) + [e]
  {
    hide Enabled, Effects, Next, AsideOk;
    assert Enabled(link, map[], Aside([e])) && Effects(link, map[], Aside([e])) == [e] by {
      AsideEnabled(link, e);
    }
    LogStep(link, [], first);
    LogStep(link, [first], Aside([e]));
    assert [] + [first] == [first] && [first] + [Aside([e])] == [first, Aside([e])];
  }

  lemma {:induction false} AsideEnabled(link: Link, e: Event)
    requires AsideOk(link, map[], [e])
    ensures Enabled(link, map[], Aside([e])) && Effects(link, map[], Aside([e])) == [e]
  {
  }

  lemma {:induction false} FourEvents(es: seq<Event>, fd: int, refusal: Msg, ping: Msg)
    requires |refusal.payload| < 0x1_0000_0000 && |ping.payload| < 0x1_0000_0000
    requires |es| == 4 && !Attempts(es[0], fd) && !Attempts(es[1], fd) && es[2] == Unsent(fd, refusal) && es[3] == Sent(fd, ping)
    ensures forall i | 0 <= i < |es| && Attempts(es[i], fd) :: |es[i].msg.payload| < 0x1_0000_0000
    ensures SentOn(es, fd) == [ping]
    ensures Octets(es, fd, _ => HDR_SIZE) == Part(refusal, HDR_SIZE) + Image(ping)
  {
    var cut := _ => HDR_SIZE;
    TwoMute(es[..2], fd, cut);
    assert es[..3][..2] == es[..2];
    hide Part, Image, Octets, SentOn;
    LastOctets(es[..3], fd, cut);
    LastOctets(es, fd, cut);
    assert [] + Part(refusal, HDR_SIZE) == Part(refusal, HDR_SIZE);
  }

  lemma {:induction false} TwoMute(es: seq<Event>, fd: int, cut: nat -> nat)
    requires |es| == 2 && !Attempts(es[0], fd) && !Attempts(es[1], fd)
    ensures SentOn(es, fd) == [] && Octets(es, fd, cut) == []
  {
    assert es[..1][..0] == [];
    LastOctets(es[..1], fd, cut);
    LastOctets(es, fd, cut);
  }

  lemma {:induction false} MisreadPing(link: Link, refusal: Msg)
    requires refusal.typ == MSG_SOCKS_STREAM_CLOSE && |refusal.payload| == CLOSE_SIZE
    ensures var heard := DeframeAll(Part(refusal, HDR_SIZE) + Image(PingMsg(link)), CAP);
      && |heard| == 1 && heard[0].typ == MSG_SOCKS_STREAM_CLOSE
      && ParseSocksClose(heard[0].payload) == Some(SocksClose(0x4e544150, 0x0108, 0))
  {
    var ping := PingMsg(link);
    var head, rest := Image(ping)[..CLOSE_SIZE], Image(ping)[CLOSE_SIZE..];
    var misread := Msg(refusal.typ, refusal.session, head);
    MagicFirst(ping);
    HeaderTakesNext(refusal, ping, CAP);
    EightAreTooFew(rest);
    EightAreAnAbort(head);
    hide Part, Image, DeframeAll, PingMsg, ParseSocksClose, Receivable;
    Rejoined(Part(refusal, HDR_SIZE), Image(ping), CLOSE_SIZE);
    FirstReceived(misread, rest, CAP);
    assert [misread] + [] == [misread];
  }

  lemma {:induction false} Rejoined(a: seq<byte>, b: seq<byte>, k: nat)
    requires k <= |b|
    ensures a + b == a + b[..k] + b[k..]
  {
  }

  lemma {:induction false} EightAreTooFew(rest: seq<byte>)
    requires |rest| == 8
    ensures DeframeAll(rest, CAP) == []
  {
  }

  lemma {:induction false} EightAreAnAbort(head: seq<byte>)
    requires head == [0x4e, 0x54, 0x41, 0x50, VERSION, MSG_PING, 0, 0]
    ensures ParseSocksClose(head) == Some(SocksClose(0x4e544150, 0x0108, 0))
  {
    var close := SocksClose(0x4e544150, 0x0108, 0);
    assert head == SocksCloseLayout(close);
    SocksCloseExact(head, close);
  }
}
