/** What the control connection carries over a whole session. */
module SessionRuns {
  import opened Accounting
  import opened Delivery
  import opened Frame
  import opened Handshake
  import opened Kernel
  import opened Session
  import opened Wire
  import ControlLoop
  import Relay
  import Streams
  import TapHub

  /** What may be sent once a session is authorised: always under its id, and frames only for its network. */
  predicate Proper(link: Streams.Link, tapMode: bool, m: Msg) {
    && m.session == link.session
    && (m == Streams.PingMsg(link) || Streams.IsFrameOf(m, link.network)
        || (!tapMode && (m.typ == MSG_SOCKS_STREAM_DATA || m.typ == MSG_SOCKS_STREAM_CLOSE)))
  }

  /** A ping without payload, a frame for the network, or, unless frames are relayed, stream data and the end of a stream. */
  lemma {:induction false} ProperExactly(link: Streams.Link, tapMode: bool, m: Msg)
    ensures Proper(link, tapMode, m) <==>
      && m.session == link.session
      && ((m.typ == 8 && m.payload == []) || Relay.Brings(m, link.network) || (!tapMode && (m.typ == 13 || m.typ == 14)))
  {
    Relay.BringsExactly(m, link.network);
    hide Relay.Brings, Streams.IsFrameOf;
  }

  ghost predicate AllProper(link: Streams.Link, tapMode: bool, es: seq<Event>) {
    forall i | 0 <= i < |es| && es[i].Sent? && es[i].fd == link.fd :: Proper(link, tapMode, es[i].msg)
  }

  lemma {:induction false} ProperConcat(link: Streams.Link, tapMode: bool, a: seq<Event>, b: seq<Event>)
    requires AllProper(link, tapMode, a) && AllProper(link, tapMode, b)
    ensures AllProper(link, tapMode, a + b)
  {
  }

  lemma {:induction false} ProperSent(link: Streams.Link, tapMode: bool, es: seq<Event>)
    requires AllProper(link, tapMode, es)
    ensures forall k | 0 <= k < |SentOn(es, link.fd)| :: Proper(link, tapMode, SentOn(es, link.fd)[k])
  {
    hide Proper;
    if es != [] {
      ProperSent(link, tapMode, es[..|es| - 1]);
    }
  }

  lemma {:induction false} StreamEffectsProper(link: Streams.Link, t: Streams.Table, a: Streams.Action)
    requires Streams.Enabled(link, t, a)
    ensures AllProper(link, false, Streams.Effects(link, t, a))
  {
    hide SocksDataLayout, SocksCloseLayout, ParseSocksOpen, ParseSocksData, ParseSocksClose, ParseTapFrame;
  }

  lemma {:induction false} ControlRunProper(link: Streams.Link, log: Streams.Log)
    requires Streams.Legal(link, log)
    ensures AllProper(link, false, Streams.Trace(link, log))
  {
    if log != [] {
      hide Streams.Effects, Streams.Enabled, AllProper;
      var init := Streams.Init(log);
      ControlRunProper(link, init);
      StreamEffectsProper(link, Streams.After(init), Streams.Final(log));
      ProperConcat(link, false, Streams.Trace(link, init), Streams.Effects(link, Streams.After(init), Streams.Final(log)));
    }
  }

  lemma {:induction false} CastElsewhere(link: Streams.Link, order: seq<int>, dropped: set<int>, m: Msg)
    requires link.fd !in order
    ensures AllProper(link, true, Relay.Casts(order, dropped, m))
  {
    hide Proper;
    if order != [] {
      var n := |order| - 1;
      CastElsewhere(link, order[..n], dropped, m);
      ProperConcat(link, true, Relay.Casts(order[..n], dropped, m), Relay.Cast(order[n], dropped, m));
    }
  }

  lemma {:induction false} FrameMsgProper(link: Streams.Link, frame: Wire.Text)
    requires |frame| >= MIN_FRAME
    ensures Proper(link, true, Relay.FrameMsg(link.session, link.network, frame))
  {
    TapFrameExact(TapFrameLayout(TapFrame(link.network, frame)), TapFrame(link.network, frame));
  }

  lemma {:induction false} PreludeProper(s: Relay.Setup, present: set<int>, a: Relay.Action)
    requires Relay.Enabled(s, present, a)
    ensures AllProper(s.link, true, Relay.Prelude(s, a))
  {
    if a.FromTap? {
      FrameMsgProper(s.link, a.frame);
    }
    hide TapFrameLayout, ParseTapFrame, Relay.Lists;
  }

  lemma {:induction false} RelayEffectsProper(s: Relay.Setup, present: set<int>, a: Relay.Action)
    requires Relay.Enabled(s, present, a) && s.link.fd !in present
    ensures AllProper(s.link, true, Relay.Effects(s, a))
  {
    PreludeProper(s, present, a);
    Relay.EffectsParts(s, a);
    hide Relay.Effects, Relay.Prelude, Relay.Casts, AllProper, ParseTapFrame;
    var order, dropped, m := Relay.OrderOf(a), Relay.DroppedBy(a), Relay.CastMsg(s, a);
    CastElsewhere(s.link, order, dropped, m);
    ProperConcat(s.link, true, Relay.Prelude(s, a), Relay.Casts(order, dropped, m));
  }

  lemma {:induction false} TapRunProper(s: Relay.Setup, log: Relay.Log)
    requires Relay.Legal(s, log)
    ensures AllProper(s.link, true, Relay.Trace(s, log))
  {
    if log != [] {
      hide Relay.Effects, Relay.Enabled, AllProper;
      var init := Relay.Init(log);
      TapRunProper(s, init);
      Relay.PresentOk(s, init);
      RelayEffectsProper(s, Relay.Present(init), Relay.Final(log));
      ProperConcat(s.link, true, Relay.Trace(s, init), Relay.Effects(s, Relay.Final(log)));
    }
  }

  /** Nothing, or a ping and then only what is proper. */
  ghost predicate Orderly(link: Streams.Link, tapMode: bool, ms: seq<Msg>) {
    ms != [] ==>
      ms[0] == Streams.PingMsg(link) && forall k | 0 <= k < |ms| :: Proper(link, tapMode, ms[k])
  }

  lemma {:induction false} RunSends(
    link: Streams.Link, tapMode: bool, opening: seq<Event>, pinged: bool,
    trace: seq<Event>, pending: seq<Event>, closings: seq<Event>)
    requires forall i | 0 <= i < |opening| :: !opening[i].Sent?
    requires AllProper(link, tapMode, trace) && (!pinged ==> trace == [])
    requires (forall i | 0 <= i < |pending| :: !pending[i].Sent?) && OnlyCloses(closings)
    ensures var begun := if pinged then opening + [Sent(link.fd, Streams.PingMsg(link))] else opening;
      Orderly(link, tapMode, SentOn(begun + trace + pending + closings, link.fd))
  {
    var begun := if pinged then opening + [Sent(link.fd, Streams.PingMsg(link))] else opening;
    ProperSent(link, tapMode, trace);
    NoneSent(pending, link.fd);
    NoneSent(closings, link.fd);
    SentConcat(begun + trace + pending, closings, link.fd);
    SentConcat(begun + trace, pending, link.fd);
    SentConcat(begun, trace, link.fd);
    if pinged {
      SentLast(opening, link.fd, Streams.PingMsg(link));
    } else {
      NoneSent(opening, link.fd);
    }
    assert SentOn(begun + trace + pending + closings, link.fd) == SentOn(begun, link.fd) + SentOn(trace, link.fd);
  }

  lemma {:induction false} ControlSends(link: Streams.Link, goal: Goal, direct: bool, rc: int, run: ControlLoop.Run)
    requires ControlLoop.RunOk(link, goal, direct, rc, run)
    ensures Orderly(link, false, SentOn(ControlLoop.EventsOf(link, direct, run), link.fd))
  {
    hide SentOn, Streams.Legal, AllProper, Orderly;
    var all := ControlLoop.Opening(link, direct, run.listener, run.pinged);
    var opening := if run.pinged then all[..|all| - 1] else all;
    if run.pinged {
      ControlRunProper(link, run.log);
      assert all == opening + [Sent(link.fd, Streams.PingMsg(link))];
    } else {
      NothingProper(link, false);
    }
    RunSends(link, false, opening, run.pinged, Streams.Trace(link, run.log), run.pending, run.closings);
  }

  lemma {:induction false} TapSends(s: Relay.Setup, direct: bool, run: TapHub.Run)
    requires TapHub.RunOk(s, direct, run)
    ensures Orderly(s.link, true, SentOn(TapHub.EventsOf(s, direct, run), s.link.fd))
  {
    hide SentOn, Relay.Legal, AllProper, Orderly;
    var all := TapHub.Opening(s, direct, run);
    var opening := if run.pinged then all[..|all| - 1] else all;
    if run.pinged {
      TapRunProper(s, run.log);
      assert all == opening + [Sent(s.link.fd, Streams.PingMsg(s.link))];
    } else {
      NothingProper(s.link, true);
    }
    RunSends(s.link, true, opening, run.pinged, Relay.Trace(s, run.log), run.pending, run.closings);
  }

  lemma {:induction false} NothingProper(link: Streams.Link, tapMode: bool)
    ensures AllProper(link, tapMode, [])
  {
  }

  lemma {:induction false} GreetingSends(who: Signer, fd: int, x: Exchange, n: nat)
    requires n <= STEPS
    ensures var server := if ServerHello(x).Some? then ServerHello(x).value.nonce else x.nonce;
      var all := [HelloMsg(x.nonce), AuthMsg(who, server, x.nonce)];
      SentOn(Greeting(who, fd, x)[..n], fd) == all[..if n == 0 then 0 else if n <= 2 then 1 else 2]
  {
    if n > 0 {
      hide HelloMsg, AuthMsg, ServerHello;
      GreetingSends(who, fd, x, n - 1);
      assert Greeting(who, fd, x)[..n][..n - 1] == Greeting(who, fd, x)[..n - 1];
    }
  }

  /**
   * In every session the node first says hello, then authenticates, both under
   * session 0; only after the server has identified itself, granted access and
   * configured the granted network does it send anything else: a ping first,
   * everything under the granted session, and frames only for the granted network.
   */
  lemma {:induction false} SessionIsOrderly(node: Node, goal: Goal, tapMode: bool, rc: int, e: Ended)
    requires e.Connected? && EndedOk(node, goal, tapMode, rc, e)
    ensures var ms := SentOn(EventsOf(node, e), e.fd);
      && (|ms| > 0 ==> ms[0] == HelloMsg(e.x.nonce))
      && (|ms| > 1 ==> HelloOk(e.x) && ms[1] == AuthMsg(node.who, ServerHello(e.x).value.nonce, e.x.nonce))
      && (|ms| > 2 ==> Authorised(e.x) && Orderly(LinkOf(e.fd, e.x), tapMode, ms[2..]))
    ensures |SentOn(EventsOf(node, e), e.fd)| > 1 ==>
      e.x.hello.typ == 1 && ParseHello(e.x.hello.payload).Some? && ParseHello(e.x.hello.payload).value.role == 0
    ensures |SentOn(EventsOf(node, e), e.fd)| > 2 ==>
      && e.x.auth.typ == 4 && ParseAuthOk(e.x.auth.payload).Some?
      && e.x.config.typ == 6 && ParseConfig(e.x.config.payload).Some?
      && var network := ParseAuthOk(e.x.auth.payload).value.networkId;
         ParseConfig(e.x.config.payload).value.networkId == network == LinkOf(e.fd, e.x).network && network != 0
  {
    HelloMeans(e.x);
    AuthorisedMeans(e.x);
    hide ParseHello, ParseAuthOk, ParseConfig;
    if Authorised(e.x) {
      GrantedMeans(e.x);
    }
    HelloReached(node, goal, tapMode, rc, e);
    GreetingSends(node.who, e.fd, e.x, e.steps);
    PartsSend(node, e);
    hide SentOn, EndedOk, EventsOf, Orderly, Greeting, HelloMsg, AuthMsg, ServerHello, HelloOk, Authorised;
    var g := SentOn(Greeting(node.who, e.fd, e.x)[..e.steps], e.fd);
    if !e.served.Nothing? {
      ServedSends(node, goal, tapMode, rc, e);
      var r := SentOn(AfterExchange(e.fd, e.x, e.served), e.fd);
      assert (g + r)[2..] == r;
    }
  }

  lemma {:induction false} PartsSend(node: Node, e: Ended)
    requires e.Connected? && Shaped(e) && forall i | 0 <= i < |e.cause| :: !e.cause[i].Sent?
    ensures SentOn(EventsOf(node, e), e.fd) == SentOn(Greeting(node.who, e.fd, e.x)[..e.steps], e.fd)
      + SentOn(AfterExchange(e.fd, e.x, e.served), e.fd)
    ensures e.served.Nothing? ==> SentOn(AfterExchange(e.fd, e.x, e.served), e.fd) == []
  {
    assert e.served.Nothing? ==> AfterExchange(e.fd, e.x, e.served) == [];
    hide SentOn, Greeting, AfterExchange, Granted, Settings;
    NoneSent([], e.fd);
    SurroundedSends([Opened(e.fd), Dialed(e.fd, e.host, e.port)], Greeting(node.who, e.fd, e.x)[..e.steps], e.cause,
                    AfterExchange(e.fd, e.x, e.served), [Closed(e.fd)], e.fd);
  }

  lemma {:induction false} SurroundedSends(
    a: seq<Event>, greeting: seq<Event>, b: seq<Event>, after: seq<Event>, c: seq<Event>, fd: int)
    requires forall i | 0 <= i < |a| :: !a[i].Sent?
    requires forall i | 0 <= i < |b| :: !b[i].Sent?
    requires forall i | 0 <= i < |c| :: !c[i].Sent?
    ensures SentOn(a + greeting + b + after + c, fd) == SentOn(greeting, fd) + SentOn(after, fd)
  {
    hide SentOn;
    NoneSent(a, fd);
    NoneSent(b, fd);
    NoneSent(c, fd);
    SentConcat(a + greeting + b + after, c, fd);
    SentConcat(a + greeting + b, after, fd);
    SentConcat(a + greeting, b, fd);
    SentConcat(a, greeting, fd);
  }

  lemma {:induction false} HelloReached(node: Node, goal: Goal, tapMode: bool, rc: int, e: Ended)
    requires e.Connected? && EndedOk(node, goal, tapMode, rc, e)
    ensures e.steps > 2 ==> HelloOk(e.x) && ServerHello(e.x).Some?
    ensures !e.served.Nothing? ==> e.steps == STEPS
    ensures Shaped(e) && forall i | 0 <= i < |e.cause| :: !e.cause[i].Sent?
  {
    hide ControlLoop.RunOk, TapHub.RunOk, ServerHello;
  }

  lemma {:induction false} ServedSends(node: Node, goal: Goal, tapMode: bool, rc: int, e: Ended)
    requires e.Connected? && EndedOk(node, goal, tapMode, rc, e) && !e.served.Nothing?
    ensures Authorised(e.x) && Orderly(LinkOf(e.fd, e.x), tapMode, SentOn(AfterExchange(e.fd, e.x, e.served), e.fd))
  {
    hide ControlLoop.RunOk, TapHub.RunOk, Orderly, SentOn;
    var link, direct := LinkOf(e.fd, e.x), Direct(Settings(e.x).value);
    match e.served
    case Control(run) => ControlSends(link, goal, direct, rc, run);
    case Tap(s, run) => TapSends(s, direct, run);
  }
}
