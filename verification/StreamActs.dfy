/** The actions of the control loop in octets and numbers: when each is taken, what it shows, and what it leaves. */
module StreamActs {
  import opened Bytes
  import opened Frame
  import opened Kernel
  import opened OctetMeaning
  import opened Options
  import opened Sequences
  import opened Streams
  import opened Wire
  import opened WireOctets
  import Text
  import ControlLoop

  // -------------------------------------------------------------------------
  // Messages
  // -------------------------------------------------------------------------

  /** A payload of SOCKS_STREAM_OPEN: stream, counted host, port. */
  predicate OpenShape(p: seq<byte>) {
    && |p| >= 8 && 1 <= U16At(p, 4) <= 255 && |p| == 8 + U16At(p, 4)
    && U32At(p, 0) != 0 && p[6] != 0 && U16At(p, 6 + U16At(p, 4)) != 0
  }

  /** A request to open a stream to a host, whose name ends at a NUL, and a port. */
  predicate OpenRequest(raw: Msg, id: u32, host: string, port: u16) {
    && raw.typ == 12 && OpenShape(raw.payload) && U32At(raw.payload, 0) == id
    && var n := U16At(raw.payload, 4);
       host == Text.Chars(UpTo(raw.payload[6..6 + n], 0)) && U16At(raw.payload, 6 + n) == port
  }

  /** Data for a stream, at most 16380 octets. */
  predicate DataRequest(raw: Msg, id: u32, data: seq<byte>) {
    && raw.typ == 13 && 4 < |raw.payload| <= 16384
    && U32At(raw.payload, 0) == id && id != 0 && raw.payload[4..] == data
  }

  /** The end of a stream: a finish if the last flag bit is set, an abort if it is not or there are no flags. */
  predicate CloseRequest(raw: Msg, id: u32, fin: bool) {
    && raw.typ == 14 && (|raw.payload| == 8 || |raw.payload| == 4)
    && U32At(raw.payload, 0) == id && id != 0
    && (fin <==> |raw.payload| == 8 && raw.payload[7] % 2 == 1)
  }

  predicate IsData(m: Msg, session: u32, id: u32, data: seq<byte>) {
    m.session == session && DataRequest(m, id, data)
  }

  /** A CLOSE of the long form. */
  predicate IsEnd(m: Msg, session: u32, id: u32, reason: u16, flags: u16) {
    && m.typ == 14 && m.session == session && |m.payload| == 8
    && U32At(m.payload, 0) == id && U16At(m.payload, 4) == reason && U16At(m.payload, 6) == flags
  }

  /** A ping: type 8 and no payload. */
  predicate IsPing(m: Msg, session: u32) {
    m == Msg(8, session, [])
  }

  /** A test frame: broadcast address, a local sender address, and an ethernet type. */
  predicate IsTest(m: Msg, network: u32) {
    && m.typ == 7 && |m.payload| == 20 && U32At(m.payload, 0) == network
    && m.payload[4..] == [0, 14, 255, 255, 255, 255, 255, 255, 2, 0, 0, 0, 0, 1, 8, 0]
  }

  lemma {:induction false} OpenRequested(raw: Msg, id: u32) returns (host: string, port: u16)
    requires IsOpen(raw, id)
    ensures OpenRequest(raw, id, host, port)
    ensures forall fd :: DialedFor(raw, fd) == Dialed(fd, host, Text.Dec(port))
    ensures FailedFor(raw) == Unreachable(host, Text.Dec(port))
  {
    hide U16At, U32At, UpTo, Text.Dec;
    SocksOpenOctets(raw.payload);
    var m := ParseSocksOpen(raw.payload).value;
    host, port := Text.Chars(UpTo(m.host, 0)), m.port;
  }

  /** Exactly those payloads ask for a stream. */
  lemma {:induction false} OpenExactly(raw: Msg)
    ensures ParseSocksOpen(raw.payload).Some? <==> OpenShape(raw.payload)
    ensures OpenShape(raw.payload) ==> ParseSocksOpen(raw.payload).value.streamId == U32At(raw.payload, 0)
  {
    hide U16At, U32At, ParseSocksOpen;
    SocksOpenOctets(raw.payload);
  }

  lemma {:induction false} DataExactly(raw: Msg, id: u32, data: seq<byte>)
    ensures raw.typ == 13 && ParseSocksData(raw.payload) == Some(SocksData(id, data)) <==> DataRequest(raw, id, data)
  {
    hide U32At, ParseSocksData;
    SocksDataOctets(raw.payload);
  }

  lemma {:induction false} CloseExactly(raw: Msg, id: u32, fin: bool)
    ensures IsClose(raw, id, fin) <==> CloseRequest(raw, id, fin)
  {
    hide U32At, ParseSocksClose;
    SocksCloseOctets(raw.payload);
  }

  lemma {:induction false} DataSentExactly(link: Link, id: u32, data: seq<byte>)
    requires id != 0 && 0 < |data| <= 8192
    ensures IsData(DataMsg(link, id, data), link.session, id, data)
  {
    hide U32At, ParseSocksData, SocksDataLayout;
    var b := SocksDataLayout(SocksData(id, data));
    SocksDataExact(b, SocksData(id, data));
    SocksDataOctets(b);
  }

  lemma {:induction false} EndSentExactly(link: Link, id: u32, reason: u16, flags: u16)
    requires id != 0
    ensures IsEnd(CloseMsg(link, id, reason, flags), link.session, id, reason, flags)
  {
    hide U32At, U16At, ParseSocksClose;
    var b := SocksCloseLayout(SocksClose(id, reason, flags));
    SocksCloseExact(b, SocksClose(id, reason, flags));
    SocksCloseOctets(b);
  }

  lemma {:induction false} TestExactly(m: Msg, network: u32)
    ensures IsTestFrame(m, network) <==> IsTest(m, network)
  {
    hide U32At, U16At, ParseTapFrame, TEST_FRAME;
    TapFrameOctets(m.payload);
    if |m.payload| == 20 {
      TestPayload(m.payload);
    }
    TestLength();
  }

  lemma {:induction false} TestLength()
    ensures |TEST_FRAME| == 14
  {
  }

  lemma {:induction false} TestPayload(p: seq<byte>)
    requires |p| == 20
    ensures p[4..] == [0, 14, 255, 255, 255, 255, 255, 255, 2, 0, 0, 0, 0, 1, 8, 0] <==> U16At(p, 4) == 14 && p[6..] == TEST_FRAME
  {
    var all := [0, 14, 255, 255, 255, 255, 255, 255, 2, 0, 0, 0, 0, 1, 8, 0];
    assert all == [0, 14] + TEST_FRAME;
    assert p[4..] == [p[4], p[5]] + p[6..];
    TwoAndRest(p[4], p[5], p[6..]);
  }

  lemma {:induction false} TwoAndRest(a: byte, b: byte, rest: seq<byte>)
    ensures [a, b] + rest == [0, 14] + TEST_FRAME <==> a == 0 && b == 14 && rest == TEST_FRAME
  {
    hide TEST_FRAME;
    var x, y := [a, b] + rest, [0, 14] + TEST_FRAME;
    if x == y {
      assert x[0] == y[0] && x[1] == y[1] && x[2..] == y[2..];
      assert x[2..] == rest && y[2..] == TEST_FRAME;
    }
  }

  // -------------------------------------------------------------------------
  // Actions
  // -------------------------------------------------------------------------

  /** A refusal that was sent or could not be. */
  predicate Refuses(link: Link, id: u32, reason: u16, e: Event) {
    (e.Sent? || e.Unsent?) && e.fd == link.fd && IsEnd(e.msg, link.session, id, reason, 0)
  }

  /**
   * Opening: the host and the port of the request are dialled; a stream starts if
   * that succeeds and there are less than 32, otherwise it is refused with reason
   * 3 if the target was not reached and with reason 4 if there are 32.
   */
  lemma {:induction false} OpenActs(link: Link, t: Table, a: Action) returns (host: string, port: u16)
    requires Enabled(link, t, a) && (a.OpenAccepted? || a.OpenUnreachable? || a.OpenFull?)
    ensures OpenRequest(a.raw, a.id, host, port) && a.id !in t
    ensures var es, dial := Effects(link, t, a), [host, Text.Dec(port)];
      && (a.OpenAccepted? ==>
            && |t| < 32 && Next(t, a) == t[a.id := Stream(a.target, false, false)]
            && es == [Received(link.fd, a.raw), Opened(a.target), Dialed(a.target, dial[0], dial[1])])
      && (a.OpenUnreachable? ==>
            && Next(t, a) == t && |es| == 3 && Refuses(link, a.id, 3, es[2])
            && es[..2] == [Received(link.fd, a.raw), Unreachable(dial[0], dial[1])])
      && (a.OpenFull? ==>
            && |t| == 32 && Next(t, a) == t && |es| == 5 && Refuses(link, a.id, 4, es[4])
            && es[..4] == [Received(link.fd, a.raw), Opened(a.target), Dialed(a.target, dial[0], dial[1]), Closed(a.target)])
  {
    host, port := OpenRequested(a.raw, a.id);
    EndSentExactly(link, a.id, if a.OpenFull? then 4 else 3, 0);
    hide IsOpen, OpenShape, CloseMsg, DialedFor, FailedFor, Text.Dec, IsEnd;
  }

  /**
   * What the client sends: data is written to the target of a stream that is open
   * and not finished by the client, a finish half-closes it, an abort closes it;
   * after the finish of the other half a finish closes it too.
   */
  lemma {:induction false} ClientActs(link: Link, t: Table, a: Action)
    requires Enabled(link, t, a)
    ensures a.ClientData? ==>
      && DataRequest(a.raw, a.id, a.data) && Next(t, a) == t
      && Effects(link, t, a) == [Received(link.fd, a.raw)]
         + if a.id in t && !t[a.id].clientFin then [Wrote(t[a.id].fd, a.data)] else []
    ensures a.ClientFin? ==>
      && CloseRequest(a.raw, a.id, true)
      && (a.id !in t ==> Next(t, a) == t && Effects(link, t, a) == [Received(link.fd, a.raw)])
      && (a.id in t && !t[a.id].targetFin ==>
            && Next(t, a) == t[a.id := Stream(t[a.id].fd, true, false)]
            && Effects(link, t, a) == [Received(link.fd, a.raw), HalfClosed(t[a.id].fd)])
      && (a.id in t && t[a.id].targetFin ==>
            && Next(t, a) == t - {a.id}
            && Effects(link, t, a) == [Received(link.fd, a.raw), HalfClosed(t[a.id].fd), Closed(t[a.id].fd)])
    ensures a.ClientAbort? ==>
      && CloseRequest(a.raw, a.id, false) && Next(t, a) == t - {a.id}
      && Effects(link, t, a) == [Received(link.fd, a.raw)] + if a.id in t then [Closed(t[a.id].fd)] else []
  {
    hide DataRequest, CloseRequest, IsClose, ParseSocksData;
    match a
    case ClientData(id, raw, data) => DataExactly(raw, id, data);
    case ClientFin(id, raw) => CloseExactly(raw, id, true);
    case ClientAbort(id, raw) => CloseExactly(raw, id, false);
    case _ =>
  }

  /**
   * What a target sends, as long as it has not finished: chunks of 1 to 8192
   * octets go on as data, and its end as a finish with reason 2.
   */
  lemma {:induction false} TargetActs(link: Link, t: Table, a: Action)
    requires TableOk(link, t) && Enabled(link, t, a) && (a.TargetData? || a.TargetFin?)
    ensures a.id in t && !t[a.id].targetFin
    ensures var es, fd := Effects(link, t, a), t[a.id].fd;
      && (a.TargetData? ==>
            && 1 <= |a.data| <= 8192 && Next(t, a) == t
            && |es| == 2 && es[0] == Read(fd, a.data)
            && es[1].Sent? && es[1].fd == link.fd && IsData(es[1].msg, link.session, a.id, a.data))
      && (a.TargetFin? ==>
            && es == [ReadEnd(fd), Sent(link.fd, es[1].msg)] + (if t[a.id].clientFin then [Closed(fd)] else [])
            && IsEnd(es[1].msg, link.session, a.id, 2, 1)
            && Next(t, a) == if t[a.id].clientFin then t - {a.id} else t[a.id := Stream(fd, false, true)])
  {
    if a.TargetData? {
      DataSentExactly(link, a.id, a.data);
    } else {
      EndSentExactly(link, a.id, 2, 1);
    }
    hide IsData, IsEnd, DataMsg, CloseMsg;
  }

  /** Nothing of that size from such a target is kept back. */
  lemma {:induction false} TargetMay(link: Link, t: Table, id: u32, data: seq<byte>)
    ensures Enabled(link, t, TargetData(id, data)) <==> id in t && !t[id].targetFin && 1 <= |data| <= 8192
    ensures Enabled(link, t, TargetFin(id)) <==> id in t && !t[id].targetFin
  {
  }

  /** An event that has to do with no stream. */
  predicate BesideStreams(link: Link, e: Event) {
    match e
    case Sent(fd, m) => fd == link.fd && (IsPing(m, link.session) || (m.session == link.session && IsTest(m, link.network)))
    case Received(fd, m) => fd == link.fd && (m.typ == 9 || IsTest(m, link.network))
    case Opened(_) => true
    case Closed(_) => true
    case Heard(_, _) => true
    case _ => false
  }

  /** Beside the streams there are pings and test frames, answers, and clients that are let go; no stream is touched. */
  lemma {:induction false} AsideActs(link: Link, t: Table, es: seq<Event>)
    requires Enabled(link, t, Aside(es))
    ensures Next(t, Aside(es)) == t && Effects(link, t, Aside(es)) == es
    ensures forall i | 0 <= i < |es| :: BesideStreams(link, es[i])
    ensures forall i, id | 0 <= i < |es| && (es[i].Opened? || es[i].Closed?) && id in t :: t[id].fd != es[i].fd
  {
    assert AsideOk(link, t, es);
    forall i | 0 <= i < |es|
      ensures BesideStreams(link, es[i])
      ensures forall id | (es[i].Opened? || es[i].Closed?) && id in t :: t[id].fd != es[i].fd
    {
      if es[i].Sent? || es[i].Received? {
        TestExactly(es[i].msg, link.network);
      }
      hide IsTest, IsTestFrame;
    }
  }

  // -------------------------------------------------------------------------
  // Ends
  // -------------------------------------------------------------------------

  /** A message that the loop cannot go on with. */
  predicate Bad(link: Link, t: Table, raw: Msg) {
    var p := raw.payload;
    if raw.typ == 7 then !IsTest(raw, link.network)
    else if raw.typ == 12 then !OpenShape(p) || U32At(p, 0) in t
    else if raw.typ == 13 then !(4 < |p| <= 16384) || U32At(p, 0) == 0
    else if raw.typ == 14 then !(|p| == 4 || |p| == 8) || U32At(p, 0) == 0
    else raw.typ != 9
  }

  lemma {:induction false} BadExactly(link: Link, t: Table, raw: Msg)
    ensures ControlLoop.Unacceptable(link, t, raw) <==> Bad(link, t, raw)
  {
    hide U32At, ParseSocksOpen, ParseSocksData, ParseSocksClose, OpenShape, IsTestFrame, IsTest;
    TestExactly(raw, link.network);
    OpenExactly(raw);
    SocksDataOctets(raw.payload);
    SocksCloseOctets(raw.payload);
  }

  /** A payload for an open stream that was not finished by the client could be written only in part. */
  predicate WrittenInPart(link: Link, t: Table, es: seq<Event>, id: u32, data: seq<byte>) {
    && |es| == 2 && es[0].Received? && es[0].fd == link.fd && DataRequest(es[0].msg, id, data)
    && id in t && !t[id].clientFin
    && es[1].Wrote? && es[1].fd == t[id].fd && |es[1].bytes| < |data| && es[1].bytes == data[..|es[1].bytes|]
  }

  /** What a target that has not finished sent, or its end, could not be passed on. */
  predicate LostOnTheWay(link: Link, t: Table, es: seq<Event>, id: u32) {
    && |es| == 2 && id in t && !t[id].targetFin && es[1].Unsent? && es[1].fd == link.fd
    && ((es[0] == ReadEnd(t[id].fd) && IsEnd(es[1].msg, link.session, id, 2, 1))
        || (es[0].Read? && es[0].fd == t[id].fd && 1 <= |es[0].bytes| <= 8192
            && IsData(es[1].msg, link.session, id, es[0].bytes)))
  }

  /** The loop is left in the middle of something only in these ways. */
  lemma {:induction false} HaltActs(link: Link, t: Table, es: seq<Event>)
    requires TableOk(link, t) && ControlLoop.HaltedBy(link, t, es)
    ensures || es == [WaitFailed] || es == [NotOpened] || es == [Unheard(link.fd)]
            || (|es| == 1 && es[0].Unsent? && es[0].fd == link.fd
                && (IsPing(es[0].msg, link.session) || (es[0].msg.session == link.session && IsTest(es[0].msg, link.network))))
            || (|es| == 1 && es[0].Received? && es[0].fd == link.fd && Bad(link, t, es[0].msg))
            || (exists id, data :: WrittenInPart(link, t, es, id, data))
            || (exists id :: LostOnTheWay(link, t, es, id))
  {
    if |es| == 1 && (es[0].Unsent? || es[0].Received?) {
      TestExactly(es[0].msg, link.network);
      BadExactly(link, t, es[0].msg);
    }
    hide IsTestFrame, IsTest, Bad, ControlLoop.Unacceptable;
    if |es| == 2 {
      if es[0].Received? {
        CutShortExactly(link, t, es);
      } else {
        var id :| ControlLoop.NotPassedOn(link, t, id, es[0], es[1]);
        LostExactly(link, t, es, id);
      }
    }
  }

  lemma {:induction false} CutShortExactly(link: Link, t: Table, es: seq<Event>)
    requires |es| == 2 && es[0].Received? && es[0].fd == link.fd && es[1].Wrote?
    requires ControlLoop.CutShort(t, es[0].msg, es[1].fd, es[1].bytes)
    ensures exists id, data :: WrittenInPart(link, t, es, id, data)
  {
    hide ParseSocksData, DataRequest;
    var d := ParseSocksData(es[0].msg.payload).value;
    DataExactly(es[0].msg, d.streamId, d.data);
    assert WrittenInPart(link, t, es, d.streamId, d.data);
  }

  lemma {:induction false} LostExactly(link: Link, t: Table, es: seq<Event>, id: u32)
    requires TableOk(link, t) && |es| == 2 && ControlLoop.NotPassedOn(link, t, id, es[0], es[1])
    ensures LostOnTheWay(link, t, es, id)
  {
    hide IsData, IsEnd, DataMsg, CloseMsg;
    EndSentExactly(link, id, 2, 1);
    if es[0].Read? {
      DataSentExactly(link, id, es[0].bytes);
    }
  }
}
