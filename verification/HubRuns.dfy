/** The frames over a whole finished run of the hub, including the one it was passing on when it stopped. */
module HubRuns {
  import opened Delivery
  import opened Frame
  import opened Kernel
  import opened Relay
  import opened TapHub
  import opened Wire
  import Hearing
  import Streams

  /** A device frame that could not be sent to the control peer. */
  function NotForwarded(s: Setup, pending: seq<Event>): seq<Msg> {
    if |pending| == 2 && pending[0].FrameIn? then TapFrameOf(s, pending[0]) else []
  }

  lemma {:induction false} ClosingsCarryNothing(s: Setup, closings: seq<Event>, fd: int)
    requires OnlyCloses(closings)
    ensures FramesTo(closings, fd) == [] && TapFrames(s, closings) == []
    ensures PeerFrames(s, closings) == [] && Offered(closings) == []
  {
    if closings != [] {
      ClosingsCarryNothing(s, closings[..|closings| - 1], fd);
    }
  }

  lemma {:induction false} PendingCarries(s: Setup, pending: seq<Event>, fd: int)
    requires HaltedBy(s, pending)
    ensures FramesTo(pending, fd) == [] && TapFrames(s, pending) == NotForwarded(s, pending)
    ensures PeerFrames(s, pending) == Offered(pending)
  {
    hide FramesTo, TapFrames, PeerFrames, Offered, FrameMsg, ParseTapFrame, Brings;
    if |pending| > 0 && pending[0].Received? {
      BringsExactly(pending[0].msg, s.link.network);
    }
    FewSent(pending, fd);
    FewTapFrames(s, pending);
    FewPeerFrames(s, pending);
    FewOffered(pending);
  }

  /**
   * When the hub stops, the control peer has got every well-sized device frame but
   * one that could not be sent to it, and every valid frame received has been
   * offered to the device.
   */
  lemma {:induction false} HubForwardsAtTheEnd(s: Setup, direct: bool, run: Run)
    requires RunOk(s, direct, run) && run.pinged
    ensures var es := Trace(s, run.log) + run.pending + run.closings;
      && TapFrames(s, es) == FramesTo(es, s.link.fd) + NotForwarded(s, run.pending)
      && Offered(es) == PeerFrames(s, es)
  {
    hide FramesTo, TapFrames, PeerFrames, Offered, NotForwarded, HaltedBy, Legal, Trace;
    var trace, fd := Trace(s, run.log), s.link.fd;
    HubForwards(s, run.log);
    PendingCarries(s, run.pending, fd);
    ClosingsCarryNothing(s, run.closings, fd);
    FramesConcat(trace, run.pending, fd);
    FramesConcat(trace + run.pending, run.closings, fd);
    TapFramesConcat(s, trace, run.pending);
    TapFramesConcat(s, trace + run.pending, run.closings);
    PeerFramesConcat(s, trace, run.pending);
    PeerFramesConcat(s, trace + run.pending, run.closings);
    OfferedConcat(trace, run.pending);
    OfferedConcat(trace + run.pending, run.closings);
  }

  /** A client that is there at the end has got every frame it was owed. */
  lemma {:induction false} ClientGetsAllAtTheEnd(s: Setup, direct: bool, run: Run, fd: int)
    requires RunOk(s, direct, run) && run.pinged && fd in Present(run.log)
    ensures var since := Since(run.log, fd);
      FramesTo(Trace(s, since) + run.pending + run.closings, fd) == OwedAll(s, since, fd)
  {
    hide FramesTo, HaltedBy, Legal, Trace, OwedAll;
    var trace := Trace(s, Since(run.log, fd));
    ClientGetsAll(s, run.log, fd);
    PendingCarries(s, run.pending, fd);
    ClosingsCarryNothing(s, run.closings, fd);
    FramesConcat(trace, run.pending, fd);
    FramesConcat(trace + run.pending, run.closings, fd);
  }

  /** A client that is let go had got every frame it was owed before that action, and gets nothing of that action. */
  lemma {:induction false} ClientLetGo(s: Setup, log: Log, fd: int)
    requires Legal(s, log) && log != [] && fd in Present(Init(log)) && fd !in Present(log)
    ensures FramesTo(Trace(s, Since(log, fd)), fd) == OwedAll(s, Since(Init(log), fd), fd)
  {
    var init, a := Init(log), Final(log);
    PresentOk(s, init);
    GoneMeans(Present(init), a, fd);
    EffectsSend(s, Present(init), a, fd);
    hide FramesTo, Effects, Enabled, Owed, OwedAll, Next;
    ClientGetsAll(s, init, fd);
    OwedStep(s, Since(init, fd), a, fd);
    FramesConcat(Trace(s, Since(init, fd)), Effects(s, a), fd);
  }

  lemma {:induction false} GoneMeans(present: set<int>, a: Action, fd: int)
    requires fd in present && fd !in Next(present, a)
    ensures !a.Joined? && (fd in DroppedBy(a) || (a.Lost? && a.fd == fd))
  {
  }

  // -------------------------------------------------------------------------
  // What a client hears
  // -------------------------------------------------------------------------

  lemma {:induction false} FramesAreSent(es: seq<Event>, fd: int)
    requires forall i | 0 <= i < |es| && es[i].Sent? && es[i].fd == fd :: es[i].msg.typ == MSG_TAP_FRAME
    ensures SentOn(es, fd) == FramesTo(es, fd)
  {
    if es != [] {
      FramesAreSent(es[..|es| - 1], fd);
    }
  }

  /** Frame messages that the client would take, none of which failed. */
  ghost predicate GoodFor(es: seq<Event>, fd: int) {
    forall i | 0 <= i < |es| && Attempts(es[i], fd) ::
      es[i].Sent? && es[i].msg.typ == MSG_TAP_FRAME && Receivable(es[i].msg, Hearing.CAP)
  }

  lemma {:induction false} GoodConcat(a: seq<Event>, b: seq<Event>, fd: int)
    requires GoodFor(a, fd) && GoodFor(b, fd)
    ensures GoodFor(a + b, fd)
  {
    hide Receivable;
  }

  lemma {:induction false} CastsAreGood(order: seq<int>, dropped: set<int>, m: Msg, fd: int)
    requires fd !in dropped && m.typ == MSG_TAP_FRAME && Receivable(m, Hearing.CAP)
    ensures GoodFor(Casts(order, dropped, m), fd)
  {
    hide Receivable;
    if order != [] {
      var n := |order| - 1;
      CastsAreGood(order[..n], dropped, m, fd);
      GoodConcat(Casts(order[..n], dropped, m), Cast(order[n], dropped, m), fd);
    }
  }

  lemma {:induction false} ActionIsGood(s: Setup, present: set<int>, a: Action, fd: int)
    requires Enabled(s, present, a) && s.mtu <= Hearing.FAIR_MTU
    requires fd in present && fd != s.link.fd && fd !in DroppedBy(a)
    ensures GoodFor(Effects(s, a), fd)
  {
    if a.FromTap? {
      Hearing.FrameIsHearable(s, 0, a.frame);
    } else if a.FromControl? || a.FromClient? {
      ReceivedFramesFit(a.raw, s.link.network, a.frame, 0);
    }
    EffectsParts(s, a);
    PreludeIsMute(s, present, a, fd);
    if a.FromTap? || a.FromControl? || a.FromClient? {
      CastsAreGood(OrderOf(a), DroppedBy(a), CastMsg(s, a), fd);
    }
    hide Effects, Prelude, Casts, FrameMsg, Receivable;
    GoodConcat(Prelude(s, a), Casts(OrderOf(a), DroppedBy(a), CastMsg(s, a)), fd);
  }

  lemma {:induction false} PreludeIsMute(s: Setup, present: set<int>, a: Action, fd: int)
    requires Enabled(s, present, a) && fd in present && fd != s.link.fd
    ensures GoodFor(Prelude(s, a), fd)
  {
    hide FrameMsg, Streams.PingMsg, ParseTapFrame, Receivable;
  }

  lemma {:induction false} SinceIsGood(s: Setup, log: Log, fd: int)
    requires Legal(s, log) && fd in Present(log) && s.mtu <= Hearing.FAIR_MTU
    ensures GoodFor(Trace(s, Since(log, fd)), fd)
  {
    var init, a := Init(log), Final(log);
    if !(a.Joined? && a.fd == fd) {
      PresentOk(s, log);
      StillPresent(Present(init), a, fd);
      ActionIsGood(s, Present(init), a, fd);
      hide Effects, Enabled, Next, Owed, GoodFor;
      SinceIsGood(s, init, fd);
      OwedStep(s, Since(init, fd), a, fd);
      GoodConcat(Trace(s, Since(init, fd)), Effects(s, a), fd);
    }
  }

  /**
   * With an mtu up to 1408, what a client decodes from the octets that it was sent
   * since it joined is exactly the frames it was owed.
   */
  lemma {:induction false} ClientHearsAll(s: Setup, log: Log, fd: int, cut: nat -> nat)
    requires Legal(s, log) && fd in Present(log) && s.mtu <= Hearing.FAIR_MTU
    ensures var es := Trace(s, Since(log, fd));
      Hearable(es, fd, Hearing.CAP) && DeframeAll(Octets(es, fd, cut), Hearing.CAP) == OwedAll(s, Since(log, fd), fd)
  {
    var es := Trace(s, Since(log, fd));
    SinceIsGood(s, log, fd);
    hide Legal, Trace, OwedAll, FramesTo, SentOn, Octets, DeframeAll;
    ClientGetsAll(s, log, fd);
    FramesAreSent(es, fd);
    StoppedIsHeard(es, fd, cut, Hearing.CAP);
  }
}
