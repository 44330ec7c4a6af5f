/** The actions of the hub in octets and numbers, and what a client gets between the opening and the closing of its descriptor. */
module RelayActs {
  import opened Bytes
  import opened DirectAccess
  import opened Frame
  import opened Kernel
  import opened OctetMeaning
  import opened Options
  import opened Relay
  import opened Wire
  import opened WireOctets
  import Streams
  import TapHub

  // -------------------------------------------------------------------------
  // Actions
  // -------------------------------------------------------------------------

  /** A TAP_FRAME message of a session that brings a frame to a network. */
  predicate Holds(m: Msg, session: u32, network: u32, frame: seq<byte>) {
    m.session == session && Brings(m, network) && m.payload[6..] == frame
  }

  lemma {:induction false} FrameMsgHolds(session: u32, network: u32, frame: Wire.Text)
    requires |frame| >= 14
    ensures Holds(FrameMsg(session, network, frame), session, network, frame)
  {
    hide ParseTapFrame, TapFrameLayout, Brings;
    TapFrameExact(TapFrameLayout(TapFrame(network, frame)), TapFrame(network, frame));
    BringsExactly(FrameMsg(session, network, frame), network);
  }

  /** A device frame is passed on exactly if the peer's decoder takes the message it becomes. */
  lemma {:induction false} SizeExactly(s: Setup, frame: Wire.Text)
    requires |frame| <= s.mtu + 18
    ensures SizeOk(s, |frame|) <==> ParseTapFrame(TapFrameLayout(TapFrame(s.link.network, frame))).Some?
  {
    hide ParseTapFrame, TapFrameLayout;
    TapFrameExact(TapFrameLayout(TapFrame(s.link.network, frame)), TapFrame(s.link.network, frame));
    if ParseTapFrame(TapFrameLayout(TapFrame(s.link.network, frame))).Some? {
      FrameParsedBack(s.link.network, frame);
    }
  }

  lemma {:induction false} FrameParsedBack(network: u32, frame: Wire.Text)
    requires ParseTapFrame(TapFrameLayout(TapFrame(network, frame))).Some?
    ensures |frame| >= 14
  {
    var b := TapFrameLayout(TapFrame(network, frame));
    var m := ParseTapFrame(b).value;
    TapFrameExact(b, m);
    assert |b| == 6 + |frame|;
    assert |TapFrameLayout(m)| == 6 + |m.frame|;
    hide TapFrameLayout, ParseTapFrame;
  }

  /** The frame is sent to each client in turn; one that it cannot be sent to is closed at once. */
  ghost predicate Spreads(es: seq<Event>, order: seq<int>, dropped: set<int>, m: Msg) {
    if order == [] then es == []
    else
      var n, fd := |es|, order[|order| - 1];
      if fd in dropped then
        n >= 2 && es[n - 2] == Unsent(fd, m) && es[n - 1] == Closed(fd)
        && Spreads(es[..n - 2], order[..|order| - 1], dropped, m)
      else
        n >= 1 && es[n - 1] == Sent(fd, m) && Spreads(es[..n - 1], order[..|order| - 1], dropped, m)
  }

  lemma {:induction false} CastsSpread(order: seq<int>, dropped: set<int>, m: Msg)
    ensures Spreads(Casts(order, dropped, m), order, dropped, m)
  {
    if order != [] {
      var init, fd := order[..|order| - 1], order[|order| - 1];
      CastsSpread(init, dropped, m);
      SpreadsMore(Casts(init, dropped, m), order, dropped, m);
    }
  }

  lemma {:induction false} SpreadsMore(es: seq<Event>, order: seq<int>, dropped: set<int>, m: Msg)
    requires order != [] && Spreads(es, order[..|order| - 1], dropped, m)
    ensures Spreads(es + Cast(order[|order| - 1], dropped, m), order, dropped, m)
  {
    var fd := order[|order| - 1];
    var all := es + Cast(fd, dropped, m);
    assert all[..|es|] == es;
  }

  /**
   * A frame of 14 to mtu + 18 octets from the device goes to the control peer and
   * to all clients, and a frame received to the device and to all clients but its
   * sender. All clients are listed once; the dropped ones are there no more.
   */
  lemma {:induction false} FrameActs(s: Setup, present: set<int>, a: Relay.Action)
    requires Enabled(s, present, a) && (a.FromTap? || a.FromControl? || a.FromClient?)
    ensures var es, m := Effects(s, a), FrameMsg(0, s.link.network, a.frame);
      && Holds(m, 0, s.link.network, a.frame) && |es| >= 2 && Spreads(es[2..], a.order, a.dropped, m)
      && Next(present, a) == present - a.dropped
      && (forall i, j | 0 <= i < j < |a.order| :: a.order[i] != a.order[j])
      && (forall fd :: fd in a.order <==> fd in present && (a.FromClient? ==> fd != a.fd))
      && (forall fd | fd in a.dropped :: fd in a.order)
      && (a.FromTap? ==>
            && 14 <= |a.frame| <= s.mtu + 18 && es[0] == FrameIn(s.tap, a.frame)
            && es[1].Sent? && es[1].fd == s.link.fd && Holds(es[1].msg, s.link.session, s.link.network, a.frame))
      && (!a.FromTap? ==>
            && Brings(a.raw, s.link.network) && |a.raw.payload| <= 1432 && a.raw.payload[6..] == a.frame
            && (a.FromClient? ==> a.fd in present)
            && es[0] == Received(if a.FromClient? then a.fd else s.link.fd, a.raw) && es[1] == FrameOut(s.tap, a.frame))
  {
    hide ParseTapFrame, Brings, Casts, FrameMsg;
    if !a.FromTap? {
      BringsExactly(a.raw, s.link.network);
      BroughtSize(a.raw, s.link.network);
    }
    FrameMsgHolds(0, s.link.network, a.frame);
    FrameMsgHolds(s.link.session, s.link.network, a.frame);
    var m := FrameMsg(0, s.link.network, a.frame);
    CastsSpread(a.order, a.dropped, m);
    assert Effects(s, a)[2..] == Casts(a.order, a.dropped, m);
    hide Spreads, Holds;
  }

  lemma {:induction false} BroughtSize(m: Msg, network: u32)
    requires Brings(m, network)
    ensures |m.payload| - 6 >= 14 && (Receivable(m, PAYLOAD_MAX_CONTROL) ==> |m.payload| <= 1432)
  {
  }

  /**
   * All other frames of the device are skipped. A client is let go if nothing or
   * no valid frame is heard of it or the device refuses its frame. A client joins
   * with a genuine token if there are less than eight, and is turned away if it
   * has none or there are eight.
   */
  lemma {:induction false} OtherActs(s: Setup, present: set<int>, a: Relay.Action)
    requires Enabled(s, present, a) && !a.FromTap? && !a.FromControl? && !a.FromClient?
    ensures var es := Effects(s, a);
      && (a.Skipped? ==> !(14 <= |a.noise| <= s.mtu + 18) && es == [FrameIn(s.tap, a.noise)] && Next(present, a) == present)
      && (a.Lost? ==>
            && a.fd in present && Next(present, a) == present - {a.fd}
            && (a.heard.None? ==> es == [Unheard(a.fd), Closed(a.fd)])
            && (a.heard.Some? && !Brings(a.heard.value, s.link.network) ==> es == [Received(a.fd, a.heard.value), Closed(a.fd)])
            && (a.heard.Some? && Brings(a.heard.value, s.link.network) ==>
                  es == [Received(a.fd, a.heard.value), FrameRefused(s.tap, a.heard.value.payload[6..]), Closed(a.fd)]))
      && (a.Joined? ==>
            && a.fd !in present + {s.link.fd, s.tap} && |present| < 8 && Admitted(s.me, s.link.network, a.now, a.text)
            && es == [Opened(a.fd), Heard(a.fd, a.text)] && Next(present, a) == present + {a.fd})
      && (a.Rejected? ==>
            && a.fd !in present + {s.link.fd, s.tap} && (!Admitted(s.me, s.link.network, a.now, a.text) || |present| == 8)
            && es == [Opened(a.fd), Heard(a.fd, a.text), Closed(a.fd)] && Next(present, a) == present)
      && (a.Ping? ==> es == [Sent(s.link.fd, Msg(8, s.link.session, []))] && Next(present, a) == present)
      && (a.Answer? ==> a.raw.typ == 9 && es == [Received(s.link.fd, a.raw)] && Next(present, a) == present)
  {
    hide ParseTapFrame, Brings, Admitted;
    if a.Lost? && a.heard.Some? {
      BringsExactly(a.heard.value, s.link.network);
    }
  }

  /**
   * The hub stops only if a wait, an accept or a ping fails, the device cannot be
   * read, the control peer is lost or sends neither an answer nor a frame of the
   * network, a device frame cannot be sent to it, or the device refuses its frame.
   */
  lemma {:induction false} HaltActs(s: Setup, es: seq<Event>)
    requires TapHub.HaltedBy(s, es)
    ensures || es == [WaitFailed] || es == [NotOpened] || es == [FrameMissed(s.tap)] || es == [Unheard(s.link.fd)]
            || es == [Unsent(s.link.fd, Msg(8, s.link.session, []))]
            || (|es| == 1 && es[0].Received? && es[0].fd == s.link.fd && es[0].msg.typ != 9
                && !Brings(es[0].msg, s.link.network))
            || (|es| == 2 && es[0].FrameIn? && es[0].fd == s.tap && 14 <= |es[0].frame| <= s.mtu + 18
                && es[1].Unsent? && es[1].fd == s.link.fd && Holds(es[1].msg, s.link.session, s.link.network, es[0].frame))
            || (|es| == 2 && es[0].Received? && es[0].fd == s.link.fd && Brings(es[0].msg, s.link.network)
                && es[1] == FrameRefused(s.tap, es[0].msg.payload[6..]))
  {
    hide ParseTapFrame, Brings, FrameMsg, Holds;
    if |es| > 0 && es[0].Received? {
      BringsExactly(es[0].msg, s.link.network);
    }
    if |es| == 2 && es[0].FrameIn? && 14 <= |es[0].frame| <= s.mtu + 18 {
      FrameMsgHolds(s.link.session, s.link.network, es[0].frame);
    }
  }

  // -------------------------------------------------------------------------
  // What a client gets, in the trace alone
  // -------------------------------------------------------------------------

  /**
   * The frames in a trace that are not a client's own: those of 14 to mtu + 18
   * octets read from the device, and those written to the device directly after a
   * message from anybody else.
   */
  function Passed(s: Setup, es: seq<Event>, fd: int): seq<seq<byte>> {
    if es == [] then [] else Passed(s, es[..|es| - 1], fd) + PassedLast(s, es, fd)
  }

  function PassedLast(s: Setup, es: seq<Event>, fd: int): seq<seq<byte>>
    requires es != []
  {
    var n, e := |es|, es[|es| - 1];
    if e.FrameIn? && 14 <= |e.frame| <= s.mtu + 18 then [e.frame]
    else if e.FrameOut? && n >= 2 && es[n - 2].Received? && es[n - 2].fd != fd then [e.frame]
    else []
  }

  lemma {:induction false} PassedConcat(s: Setup, a: seq<Event>, b: seq<Event>, fd: int)
    requires b != [] ==> !b[0].FrameOut?
    ensures Passed(s, a + b, fd) == Passed(s, a, fd) + Passed(s, b, fd)
  {
    if b == [] {
      assert a + b == a;
    } else {
      var init := b[..|b| - 1];
      hide PassedLast;
      PassedConcat(s, a, init, fd);
      LastPassed(s, a, b, fd);
      assert (a + b)[..|a + b| - 1] == a + init;
    }
  }

  lemma {:induction false} LastPassed(s: Setup, a: seq<Event>, b: seq<Event>, fd: int)
    requires b != [] && !b[0].FrameOut?
    ensures PassedLast(s, a + b, fd) == PassedLast(s, b, fd)
  {
  }

  lemma {:induction false} NonePassed(s: Setup, es: seq<Event>, fd: int)
    requires forall i | 0 <= i < |es| :: !es[i].FrameIn? && !es[i].FrameOut?
    ensures Passed(s, es, fd) == []
  {
    if es != [] {
      NonePassed(s, es[..|es| - 1], fd);
    }
  }

  lemma {:induction false} CastsPassNothing(order: seq<int>, dropped: set<int>, m: Msg)
    ensures forall i | 0 <= i < |Casts(order, dropped, m)| ::
      !Casts(order, dropped, m)[i].FrameIn? && !Casts(order, dropped, m)[i].FrameOut?
  {
    if order != [] {
      CastsPassNothing(order[..|order| - 1], dropped, m);
    }
  }

  /** Messages that bring just these frames, under session 0. */
  ghost predicate Bring(ms: seq<Msg>, network: u32, frames: seq<seq<byte>>) {
    |ms| == |frames| && forall k | 0 <= k < |ms| :: Holds(ms[k], 0, network, frames[k])
  }

  lemma {:induction false} BringMore(ms: seq<Msg>, more: seq<Msg>, network: u32, frames: seq<seq<byte>>, added: seq<seq<byte>>)
    requires Bring(ms, network, frames) && Bring(more, network, added)
    ensures Bring(ms + more, network, frames + added)
  {
    hide Holds;
  }

  lemma {:induction false} FewPassed(s: Setup, es: seq<Event>, fd: int)
    requires |es| <= 3
    ensures Passed(s, es, fd) == (if |es| > 0 then PassedLast(s, es[..1], fd) else [])
      + (if |es| > 1 then PassedLast(s, es[..2], fd) else []) + (if |es| > 2 then PassedLast(s, es, fd) else [])
  {
    hide PassedLast;
    if |es| > 0 {
      FewPassed(s, es[..|es| - 1], fd);
      assert es[..|es|] == es;
      assert |es| == 3 ==> es[..2][..1] == es[..1] && es[..2][..2] == es[..2];
      assert |es| == 2 ==> es[..1][..1] == es[..1];
    }
  }

  lemma {:induction false} PreludePasses(s: Setup, present: set<int>, a: Relay.Action, fd: int)
    requires Enabled(s, present, a) && fd != s.link.fd
    ensures Bring(Owed(s, a, fd), s.link.network, Passed(s, Prelude(s, a), fd))
    ensures Prelude(s, a) != [] && !Prelude(s, a)[0].FrameOut?
  {
    hide ParseTapFrame, TapFrameLayout, Passed, Holds, FrameMsg, Lists, Admitted, Receivable, Brings;
    var es := Prelude(s, a);
    FewPassed(s, es, fd);
    assert |es| > 0 ==> es[..1] == [es[0]];
    assert |es| > 1 ==> es[..2] == [es[0], es[1]];
    if a.FromTap? || a.FromControl? || a.FromClient? {
      if !a.FromTap? {
        BringsExactly(a.raw, s.link.network);
        BroughtSize(a.raw, s.link.network);
      }
      FrameMsgHolds(0, s.link.network, a.frame);
      assert a.FromTap? ==> Passed(s, es, fd) == [a.frame];
      assert a.FromControl? ==> Passed(s, es, fd) == [a.frame];
      assert a.FromClient? ==> Passed(s, es, fd) == if fd == a.fd then [] else [a.frame];
    } else {
      assert Passed(s, es, fd) == [];
    }
  }

  lemma {:induction false} ActionPasses(s: Setup, present: set<int>, a: Relay.Action, fd: int)
    requires Enabled(s, present, a) && fd != s.link.fd
    ensures Bring(Owed(s, a, fd), s.link.network, Passed(s, Effects(s, a), fd))
    ensures Effects(s, a) != [] && !Effects(s, a)[0].FrameOut?
  {
    hide ParseTapFrame, FrameMsg, Passed, Enabled, Effects, Prelude, Casts, Bring, Owed;
    var casts := Casts(OrderOf(a), DroppedBy(a), CastMsg(s, a));
    EffectsParts(s, a);
    PreludePasses(s, present, a, fd);
    CastsPassNothing(OrderOf(a), DroppedBy(a), CastMsg(s, a));
    NonePassed(s, casts, fd);
    PassedConcat(s, Prelude(s, a), casts, fd);
    assert Passed(s, Prelude(s, a), fd) + [] == Passed(s, Prelude(s, a), fd);
  }

  lemma {:induction false} OwedIsPassed(s: Setup, log: Relay.Log, fd: int)
    requires Legal(s, log) && fd in Present(log)
    ensures Bring(OwedAll(s, Since(log, fd), fd), s.link.network, Passed(s, Trace(s, Since(log, fd)), fd))
  {
    var init, a := Init(log), Final(log);
    if !(a.Joined? && a.fd == fd) {
      PresentOk(s, log);
      StillPresent(Present(init), a, fd);
      hide Effects, Enabled, Owed, OwedAll, Next, Passed, Bring;
      OwedIsPassed(s, init, fd);
      ActionPasses(s, Present(init), a, fd);
      OwedStep(s, Since(init, fd), a, fd);
      PassedConcat(s, Trace(s, Since(init, fd)), Effects(s, a), fd);
      BringMore(OwedAll(s, Since(init, fd), fd), Owed(s, a, fd), s.link.network,
                Passed(s, Trace(s, Since(init, fd)), fd), Passed(s, Effects(s, a), fd));
    }
  }

  lemma {:induction false} StaysOpen(s: Setup, present: set<int>, a: Relay.Action, fd: int)
    requires Enabled(s, present, a) && fd in present && fd in Next(present, a) && fd != s.link.fd && fd != s.tap
    ensures Opened(fd) !in Effects(s, a) && Closed(fd) !in Effects(s, a)
  {
    hide ParseTapFrame, FrameMsg, Casts, Admitted, Receivable;
    EffectsParts(s, a);
    CastsClose(OrderOf(a), DroppedBy(a), CastMsg(s, a), fd);
  }

  lemma {:induction false} CastsClose(order: seq<int>, dropped: set<int>, m: Msg, fd: int)
    ensures Opened(fd) !in Casts(order, dropped, m)
    ensures fd !in dropped ==> Closed(fd) !in Casts(order, dropped, m)
  {
    if order != [] {
      CastsClose(order[..|order| - 1], dropped, m, fd);
    }
  }

  /**
   * A client that is there was accepted with a genuine token, its descriptor was
   * not closed since, and it was sent exactly the frames that passed the hub in
   * that time and are not its own, in order and once each.
   */
  lemma {:induction false} ClientOnTheWire(s: Setup, log: Relay.Log, fd: int)
    returns (before: seq<Event>, text: string, now: nat, since: seq<Event>)
    requires Legal(s, log) && fd in Present(log)
    ensures Trace(s, log) == before + [Opened(fd), Heard(fd, text)] + since
    ensures Admitted(s.me, s.link.network, now, text)
    ensures Opened(fd) !in since && Closed(fd) !in since
    ensures Bring(FramesTo(since, fd), s.link.network, Passed(s, since, fd))
  {
    hide Passed, Bring, FramesTo, Admitted, Legal, Trace, OwedAll;
    since := Trace(s, Since(log, fd));
    before, text, now := JoinedOnce(s, log, fd);
    ClientGetsAll(s, log, fd);
    OwedIsPassed(s, log, fd);
  }

  lemma {:induction false} JoinedOnce(s: Setup, log: Relay.Log, fd: int)
    returns (before: seq<Event>, text: string, now: nat)
    requires Legal(s, log) && fd in Present(log)
    ensures Trace(s, log) == before + [Opened(fd), Heard(fd, text)] + Trace(s, Since(log, fd))
    ensures Admitted(s.me, s.link.network, now, text)
    ensures Opened(fd) !in Trace(s, Since(log, fd)) && Closed(fd) !in Trace(s, Since(log, fd))
  {
    hide Effects, Enabled, Owed, OwedAll, Next, Admitted, Trace, Legal, Since, Present;
    SomebodyIsThere(log, fd);
    var init, a := Init(log), Final(log);
    LastStep(s, log);
    PresentOk(s, log);
    SinceIs(log, fd);
    if a.Joined? && a.fd == fd {
      before, text, now := Trace(s, init), a.text, a.now;
      OtherActs(s, Present(init), a);
      NoTrace(s);
    } else {
      StillPresent(Present(init), a, fd);
      StaysOpen(s, Present(init), a, fd);
      before, text, now := JoinedOnce(s, init, fd);
      OwedStep(s, Since(init, fd), a, fd);
      NotInBoth(Trace(s, Since(init, fd)), Effects(s, a), Opened(fd));
      NotInBoth(Trace(s, Since(init, fd)), Effects(s, a), Closed(fd));
    }
  }

  lemma {:induction false} LastStep(s: Setup, log: Relay.Log)
    requires Legal(s, log) && log != []
    ensures Legal(s, Init(log)) && Enabled(s, Present(Init(log)), Final(log))
    ensures Trace(s, log) == Trace(s, Init(log)) + Effects(s, Final(log))
    ensures Present(log) == Next(Present(Init(log)), Final(log))
  {
  }

  lemma {:induction false} SinceIs(log: Relay.Log, fd: int)
    requires log != []
    ensures Since(log, fd)
      == if Final(log).Joined? && Final(log).fd == fd then [] else Since(Init(log), fd) + [Final(log)]
  {
  }

  lemma {:induction false} SomebodyIsThere(log: Relay.Log, fd: int)
    requires fd in Present(log)
    ensures log != []
  {
  }

  lemma {:induction false} NoTrace(s: Setup)
    ensures Trace(s, []) == []
  {
  }

  lemma {:induction false} NotInBoth(a: seq<Event>, b: seq<Event>, e: Event)
    ensures e in a + b <==> e in a || e in b
  {
  }
}
