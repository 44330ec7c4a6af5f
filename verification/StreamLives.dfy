/**
 * The lifetimes of streams in the trace alone: what the octets received for a
 * stream since its descriptor was opened do to that descriptor.
 */
module StreamLives {
  import opened Bytes
  import opened Frame
  import opened Kernel
  import opened OctetMeaning
  import opened Options
  import opened Streams
  import opened StreamActs
  import opened StreamRuns
  import opened Wire
  import opened WireOctets
  import Text

  // -------------------------------------------------------------------------
  // What was asked for
  // -------------------------------------------------------------------------

  /** What a received message asks for an open stream. */
  datatype Ask = Upload(data: seq<byte>) | Finish | Abort

  function AskOf(m: Msg, id: u32): Option<Ask> {
    if |m.payload| >= 4 && DataRequest(m, id, m.payload[4..]) then Some(Upload(m.payload[4..]))
    else if CloseRequest(m, id, true) then Some(Finish)
    else if CloseRequest(m, id, false) then Some(Abort)
    else None
  }

  /** What the messages received on a descriptor ask for a stream, in order. */
  function Asked(es: seq<Event>, fd: int, id: u32): seq<Ask> {
    if es == [] then [] else Asked(es[..|es| - 1], fd, id) + AskedBy(es[|es| - 1], fd, id)
  }

  function AskedBy(e: Event, fd: int, id: u32): seq<Ask> {
    if e.Received? && e.fd == fd && AskOf(e.msg, id).Some? then [AskOf(e.msg, id).value] else []
  }

  /** The data up to the first finish or abort. */
  function Uploaded(asks: seq<Ask>): seq<byte> {
    if asks == [] || !asks[0].Upload? then [] else asks[0].data + Uploaded(asks[1..])
  }

  lemma {:induction false} AskedConcat(a: seq<Event>, b: seq<Event>, fd: int, id: u32)
    ensures Asked(a + b, fd, id) == Asked(a, fd, id) + Asked(b, fd, id)
  {
    hide AskedBy;
    if b == [] {
      assert a + b == a;
    } else {
      AskedConcat(a, b[..|b| - 1], fd, id);
      assert (a + b)[..|a + b| - 1] == a + b[..|b| - 1];
    }
  }

  lemma {:induction false} NothingAsked(es: seq<Event>, fd: int, id: u32)
    requires AsksNothing(es, fd, id)
    ensures Asked(es, fd, id) == []
  {
    hide AskedBy;
    if es != [] {
      NothingAsked(es[..|es| - 1], fd, id);
    }
  }

  /** What an action says about a stream. */
  function AskIn(a: Action, id: u32): seq<Ask> {
    match a
    case ClientData(i, _, data) => if i == id then [Upload(data)] else []
    case ClientFin(i, _) => if i == id then [Finish] else []
    case ClientAbort(i, _) => if i == id then [Abort] else []
    case _ => []
  }

  lemma {:induction false} AskIs(m: Msg, i: u32, id: u32)
    ensures forall data :: DataRequest(m, i, data) ==> AskOf(m, id) == if i == id then Some(Upload(data)) else None
    ensures CloseRequest(m, i, true) ==> AskOf(m, id) == if i == id then Some(Finish) else None
    ensures CloseRequest(m, i, false) ==> AskOf(m, id) == if i == id then Some(Abort) else None
    ensures m.typ != 13 && m.typ != 14 ==> AskOf(m, id) == None
  {
    hide U32At;
  }

  ghost predicate AsksNothing(es: seq<Event>, fd: int, id: u32) {
    forall i | 0 <= i < |es| :: AskedBy(es[i], fd, id) == []
  }

  lemma {:induction false} AsideAsksNothing(link: Link, t: Table, es: seq<Event>, id: u32)
    requires Enabled(link, t, Aside(es))
    ensures AsksNothing(es, link.fd, id)
  {
    AsideActs(link, t, es);
    hide Enabled, AskOf, Effects, Next;
    forall i | 0 <= i < |es|
      ensures AskedBy(es[i], link.fd, id) == []
    {
      assert BesideStreams(link, es[i]);
      if es[i].Received? {
        AskIs(es[i].msg, 0, id);
      }
    }
  }

  lemma {:induction false} OpenAsksNothing(link: Link, t: Table, a: Action, id: u32)
    requires Enabled(link, t, a) && (a.OpenAccepted? || a.OpenUnreachable? || a.OpenFull?)
    ensures AsksNothing(Effects(link, t, a), link.fd, id)
  {
    hide AskOf, Enabled, OpenShape, Next, IsOpen, CloseMsg, Text.Dec, IsEnd;
    var host, port := OpenActs(link, t, a);
    AskIs(a.raw, 0, id);
  }

  lemma {:induction false} TargetAsksNothing(link: Link, t: Table, a: Action, id: u32)
    requires TableOk(link, t) && Enabled(link, t, a) && (a.TargetData? || a.TargetFin?)
    ensures AsksNothing(Effects(link, t, a), link.fd, id)
  {
    hide AskOf, IsData, IsEnd, Enabled, Effects, Next, TableOk;
    TargetActs(link, t, a);
  }

  lemma {:induction false} ClientAsks(link: Link, t: Table, a: Action, id: u32)
    requires Enabled(link, t, a) && (a.ClientData? || a.ClientFin? || a.ClientAbort?)
    ensures Asked(Effects(link, t, a), link.fd, id) == AskIn(a, id)
  {
    hide Enabled, Next, AskOf, Asked, DataRequest, CloseRequest;
    ClientActs(link, t, a);
    AskIs(a.raw, a.id, id);
    var first := Received(link.fd, a.raw);
    var rest := Effects(link, t, a)[1..];
    assert Effects(link, t, a) == [first] + rest;
    hide Effects;
    FirstAsked(first, link.fd, id);
    NothingAsked(rest, link.fd, id);
    AskedConcat([first], rest, link.fd, id);
  }

  lemma {:induction false} EffectsAsk(link: Link, t: Table, a: Action, id: u32)
    requires TableOk(link, t) && Enabled(link, t, a)
    ensures Asked(Effects(link, t, a), link.fd, id) == AskIn(a, id)
  {
    hide TableOk, Enabled, Effects, Next, Asked, AskedBy, AsksNothing;
    if a.ClientData? || a.ClientFin? || a.ClientAbort? {
      ClientAsks(link, t, a, id);
    } else {
      if a.Aside? {
        AsideActs(link, t, a.events);
        AsideAsksNothing(link, t, a.events, id);
      } else if a.TargetData? || a.TargetFin? {
        TargetAsksNothing(link, t, a, id);
      } else {
        OpenAsksNothing(link, t, a, id);
      }
      NothingAsked(Effects(link, t, a), link.fd, id);
    }
  }

  lemma {:induction false} FirstAsked(e: Event, fd: int, id: u32)
    ensures Asked([e], fd, id) == AskedBy(e, fd, id)
  {
    assert [e][..0] == [];
    assert Asked([], fd, id) == [];
  }

  function AsksIn(log: Log, id: u32): seq<Ask> {
    if log == [] then [] else AsksIn(Init(log), id) + AskIn(Final(log), id)
  }

  lemma {:induction false} SinceStep(link: Link, log: Log, id: u32)
    requires log != [] && !Accepts(Final(log), id)
    ensures EventsSince(link, log, id) == EventsSince(link, Init(log), id) + Effects(link, After(Init(log)), Final(log))
    ensures AsksIn(LogSince(log, id), id) == AsksIn(LogSince(Init(log), id), id) + AskIn(Final(log), id)
  {
    hide Effects, AskIn, After;
    assert Init(LogSince(log, id)) == LogSince(Init(log), id);
  }

  lemma {:induction false} AskedIsIn(link: Link, log: Log, id: u32)
    requires Legal(link, log)
    ensures Asked(EventsSince(link, log, id), link.fd, id) == AsksIn(LogSince(log, id), id)
  {
    if log != [] && !Accepts(Final(log), id) {
      var init, a := Init(log), Final(log);
      hide Asked, AsksIn, AskIn, Enabled, Effects, TableOk, Next, After, EventsSince, LogSince, Accepts, Init, Final;
      AskedIsIn(link, init, id);
      SinceStep(link, log, id);
      RunsKeepTable(link, init);
      EffectsAsk(link, After(init), a, id);
      AskedConcat(EventsSince(link, init, id), Effects(link, After(init), a), link.fd, id);
    }
  }

  ghost predicate OnlyUploads(asks: seq<Ask>) {
    forall i | 0 <= i < |asks| :: asks[i].Upload?
  }

  lemma {:induction false} OnlyUploadsMore(asks: seq<Ask>, more: seq<Ask>)
    ensures OnlyUploads(asks + more) <==> OnlyUploads(asks) && OnlyUploads(more)
  {
    var all := asks + more;
    assert forall i | 0 <= i < |asks| :: all[i] == asks[i];
    assert forall i | 0 <= i < |more| :: all[|asks| + i] == more[i];
  }

  lemma {:induction false} OneOnly(ask: Ask)
    ensures OnlyUploads([ask]) <==> ask.Upload?
  {
    assert [ask][0] == ask;
  }

  lemma {:induction false} UploadedMore(asks: seq<Ask>, more: seq<Ask>)
    ensures Uploaded(asks + more) == Uploaded(asks) + if OnlyUploads(asks) then Uploaded(more) else []
  {
    hide *;
    if asks == [] {
      NothingUploaded();
      assert asks + more == more;
    } else {
      var first, rest := asks[0], asks[1..];
      UploadedMore(rest, more);
      UploadedFirst(first, rest);
      UploadedFirst(first, rest + more);
      assert asks == [first] + rest;
      assert asks + more == [first] + (rest + more);
    }
  }

  lemma {:induction false} NothingUploaded()
    ensures Uploaded([]) == [] && OnlyUploads([])
  {
  }

  lemma {:induction false} UploadedFirst(first: Ask, rest: seq<Ask>)
    ensures Uploaded([first] + rest) == if first.Upload? then first.data + Uploaded(rest) else []
    ensures OnlyUploads([first] + rest) <==> first.Upload? && OnlyUploads(rest)
  {
    assert ([first] + rest)[1..] == rest;
    OnlyUploadsMore([first], rest);
    OneOnly(first);
    hide OnlyUploads;
  }

  lemma {:induction false} DeliveredIsUploaded(log: Log, id: u32)
    ensures Delivered(log, id) == Uploaded(AsksIn(log, id))
    ensures Stopped(log, id) <==> !OnlyUploads(AsksIn(log, id))
  {
    if log != [] {
      var init, a := Init(log), Final(log);
      assert log == init + [a];
      DeliveredIsUploaded(init, id);
      DeliveredStep(init, a, id);
      StoppedStep(init, a, id);
      OnlyUploadsMore(AsksIn(init, id), AskIn(a, id));
      UploadedMore(AsksIn(init, id), AskIn(a, id));
      OneUploaded(a, id);
      hide Delivered, Uploaded, Stopped, OnlyUploads, AskIn;
    }
  }

  lemma {:induction false} OneUploaded(a: Action, id: u32)
    ensures |AskIn(a, id)| <= 1
    ensures Uploaded(AskIn(a, id)) == if a.ClientData? && a.id == id then a.data else []
    ensures OnlyUploads(AskIn(a, id)) <==> !((a.ClientFin? || a.ClientAbort?) && a.id == id)
  {
    var asks := AskIn(a, id);
    if asks != [] {
      assert asks[1..] == [];
    }
  }

  /** What the peer reads in a message about a stream: its data, its finish, or its refusal with a reason. */
  lemma {:induction false} SymExactly(m: Msg, id: u32)
    requires id != 0
    ensures forall data :: SymOf(m, id) == Some(Payload(data)) <==> DataRequest(m, id, data)
    ensures SymOf(m, id) == Some(Finished) <==> CloseRequest(m, id, true)
    ensures forall reason :: SymOf(m, id) == Some(Denied(reason)) <==>
      CloseRequest(m, id, false) && reason == if |m.payload| == 4 then 2 else U16At(m.payload, 4)
  {
    hide U32At, ParseSocksData, ParseSocksClose;
    SocksDataOctets(m.payload);
    SocksCloseOctets(m.payload);
  }

  // -------------------------------------------------------------------------
  // A lifetime in the trace
  // -------------------------------------------------------------------------

  /**
   * The events of a lifetime are those since its descriptor was last opened: a
   * request to open the stream was received, and its host and port were dialled.
   */
  lemma {:induction false} LifetimeBegins(link: Link, log: Log, id: u32, fd: int)
    returns (before: seq<Event>, raw: Msg, host: string, port: u16)
    requires Legal(link, log) && Lifetime(log, id, fd)
    ensures OpenRequest(raw, id, host, port)
    ensures Trace(link, log)
      == before + [Received(link.fd, raw), Opened(fd), Dialed(fd, host, Text.Dec(port))] + EventsSince(link, log, id)
    ensures Opened(fd) !in EventsSince(link, log, id)
  {
    hide OpenRequest, Effects, Enabled, Next, Opens, Trace, EventsSince, WrittenSince, ReadSince, Text.Dec, Legal, After;
    var init, a := Init(log), Final(log);
    LastStep(link, log);
    if Accepts(a, id) {
      before := Trace(link, init);
      raw, host, port := BeginsHere(link, log, id);
      assert EventsSince(link, log, id) == [] by {
        JustBegun(link, log, id);
      }
    } else {
      before, raw, host, port := LifetimeBegins(link, init, id, fd);
      EffectsMove(link, After(init), a, fd);
      SinceStep(link, log, id);
      NotInBoth(EventsSince(link, init, id), Effects(link, After(init), a), Opened(fd));
    }
  }

  lemma {:induction false} NotInBoth(a: seq<Event>, b: seq<Event>, e: Event)
    ensures e in a + b <==> e in a || e in b
  {
  }

  lemma {:induction false} JustBegun(link: Link, log: Log, id: u32)
    requires log != [] && Accepts(Final(log), id)
    ensures EventsSince(link, log, id) == []
  {
  }

  lemma {:induction false} LastStep(link: Link, log: Log)
    requires Legal(link, log) && log != []
    ensures Legal(link, Init(log)) && Enabled(link, After(Init(log)), Final(log))
    ensures Trace(link, log) == Trace(link, Init(log)) + Effects(link, After(Init(log)), Final(log))
    ensures After(log) == Next(After(Init(log)), Final(log))
  {
  }

  lemma {:induction false} BeginsHere(link: Link, log: Log, id: u32) returns (raw: Msg, host: string, port: u16)
    requires Legal(link, log) && log != [] && Accepts(Final(log), id)
    ensures OpenRequest(raw, id, host, port)
    ensures Trace(link, log) == Trace(link, Init(log))
      + [Received(link.fd, raw), Opened(Final(log).target), Dialed(Final(log).target, host, Text.Dec(port))]
  {
    LastStep(link, log);
    hide OpenRequest, Effects, Enabled, Next, Trace, Text.Dec, Legal, After;
    host, port := OpenActs(link, After(Init(log)), Final(log));
    raw := Final(log).raw;
  }

  /** In every run: what was written to the target of a lifetime is the data received for it, up to the first finish or abort. */
  lemma {:induction false} UploadOnTheWire(link: Link, log: Log, id: u32, fd: int)
    requires Legal(link, log) && Lifetime(log, id, fd)
    ensures WrittenSince(Trace(link, log), fd) == Uploaded(Asked(EventsSince(link, log, id), link.fd, id))
  {
    hide Legal, Lifetime, Trace, Delivered, Uploaded, Asked, EventsSince, WrittenSince;
    UploadIsFaithful(link, log, id, fd);
    AskedIsIn(link, log, id);
    DeliveredIsUploaded(LogSince(log, id), id);
  }

  /**
   * How a lifetime goes on. The target is half-closed after a finish was received,
   * and as long as it is open only then; it is closed exactly if an abort was
   * received, or it was half-closed and has itself ended; and never half-closed
   * after it was closed.
   */
  ghost predicate Course(es: seq<Event>, asks: seq<Ask>, fd: int) {
    && (HalfClosed(fd) in es ==> Finish in asks)
    && (Finish in asks && Closed(fd) !in es ==> HalfClosed(fd) in es)
    && (Closed(fd) in es <==> Abort in asks || (HalfClosed(fd) in es && ReadEnd(fd) in es))
    && Ordered(es, fd)
  }

  ghost predicate Ordered(es: seq<Event>, fd: int) {
    forall i, j | 0 <= i <= j < |es| && es[i] == Closed(fd) :: es[j] != HalfClosed(fd)
  }

  /** The state of a stream is what the events since its acceptance say. */
  ghost predicate Shown(t: Table, id: u32, fd: int, es: seq<Event>) {
    && (id in t <==> Closed(fd) !in es)
    && (id in t ==> (t[id].clientFin <==> HalfClosed(fd) in es) && (t[id].targetFin <==> ReadEnd(fd) in es))
  }

  lemma {:induction false} ClosesOnly(link: Link, t: Table, a: Action, id: u32, fd: int)
    requires TableOk(link, t) && Enabled(link, t, a) && Owned(t, id, fd) && !Accepts(a, id) && !Opens(a, fd)
    ensures var es := Effects(link, t, a);
      && (HalfClosed(fd) in es <==> a.ClientFin? && a.id == id && id in t)
      && (ReadEnd(fd) in es <==> a.TargetFin? && a.id == id)
      && (id in t ==> (Closed(fd) in es <==> id !in Next(t, a)))
      && (HalfClosed(fd) in es ==> |es| <= 3 && es[1] == HalfClosed(fd))
  {
    hide IsOpen, IsClose, ParseSocksData, IsTestFrame, CloseMsg, DataMsg, DialedFor, FailedFor;
    var es := Effects(link, t, a);
    match a
    case Aside(events) =>
      assert AsideOk(link, t, events);
      assert forall i | 0 <= i < |events| :: !events[i].HalfClosed? && !events[i].ReadEnd?;
    case _ =>
  }

  lemma {:induction false} ShownStep(link: Link, t: Table, a: Action, id: u32, fd: int, es: seq<Event>)
    requires TableOk(link, t) && Enabled(link, t, a) && Owned(t, id, fd) && !Accepts(a, id) && !Opens(a, fd)
    requires Shown(t, id, fd, es)
    ensures Shown(Next(t, a), id, fd, es + Effects(link, t, a))
  {
    ClosesOnly(link, t, a, id, fd);
    EndsAre(link, t, a, id);
    hide Enabled, Effects, Opens, TableOk;
    NotInBoth(es, Effects(link, t, a), HalfClosed(fd));
    NotInBoth(es, Effects(link, t, a), Closed(fd));
    NotInBoth(es, Effects(link, t, a), ReadEnd(fd));
  }

  lemma {:induction false} EndsAre(link: Link, t: Table, a: Action, id: u32)
    requires Enabled(link, t, a) && !Accepts(a, id)
    ensures var t' := Next(t, a);
      && (id in t' ==> id in t)
      && (id in t' ==> (t'[id].clientFin <==> t[id].clientFin || (a.ClientFin? && a.id == id)))
      && (id in t' ==> (t'[id].targetFin <==> t[id].targetFin || (a.TargetFin? && a.id == id)))
      && (id in t && id !in t' ==> a.ClientAbort? || a.ClientFin? || a.TargetFin?)
      && (a.ClientAbort? && a.id == id ==> id !in t')
      && (id in t && id !in t' && !a.ClientAbort? ==>
            && (t[id].clientFin || (a.ClientFin? && a.id == id))
            && (t[id].targetFin || (a.TargetFin? && a.id == id)))
      && (id in t && id !in t' && a.ClientAbort? ==> a.id == id)
      && (a.TargetFin? && a.id == id ==> id in t)
      && (id in t && a.ClientFin? && a.id == id && t[id].targetFin ==> id !in t')
      && (id in t && a.TargetFin? && a.id == id && t[id].clientFin ==> id !in t')
  {
    hide IsOpen, IsClose, AsideOk;
  }

  lemma {:induction false} CourseStep(link: Link, t: Table, a: Action, id: u32, fd: int, es: seq<Event>, asks: seq<Ask>)
    requires TableOk(link, t) && Enabled(link, t, a) && Owned(t, id, fd) && !Accepts(a, id) && !Opens(a, fd)
    requires Shown(t, id, fd, es) && Course(es, asks, fd)
    ensures Course(es + Effects(link, t, a), asks + AskIn(a, id), fd)
  {
    var more := Effects(link, t, a);
    ShownStep(link, t, a, id, fd, es);
    ClosesOnly(link, t, a, id, fd);
    EndsAre(link, t, a, id);
    InOrder(link, t, a, id, fd);
    hide Enabled, Effects, Opens, Next, TableOk;
    NotInBoth(es, more, HalfClosed(fd));
    NotInBoth(es, more, Closed(fd));
    NotInBoth(es, more, ReadEnd(fd));
    OrderJoined(es, more, fd);
  }

  lemma {:induction false} InOrder(link: Link, t: Table, a: Action, id: u32, fd: int)
    requires Enabled(link, t, a) && TableOk(link, t) && Owned(t, id, fd) && !Accepts(a, id) && !Opens(a, fd)
    ensures Ordered(Effects(link, t, a), fd)
  {
    ClosesOnly(link, t, a, id, fd);
    if HalfClosed(fd) in Effects(link, t, a) {
      ClientActs(link, t, a);
      hide Effects, Enabled, Opens, Next, TableOk;
    }
  }

  lemma {:induction false} OrderJoined(es: seq<Event>, more: seq<Event>, fd: int)
    requires Ordered(es, fd) && Ordered(more, fd) && (Closed(fd) in es ==> HalfClosed(fd) !in more)
    ensures Ordered(es + more, fd)
  {
    var all := es + more;
    forall i, j | 0 <= i <= j < |all| && all[i] == Closed(fd)
      ensures all[j] != HalfClosed(fd)
    {
      if i < |es| && j >= |es| {
        assert all[j] == more[j - |es|] && es[i] in es && more[j - |es|] in more;
      } else if i >= |es| {
        assert all[i] == more[i - |es|] && all[j] == more[j - |es|];
      }
    }
  }

  /**
   * In every run, for the latest lifetime of every stream: it goes on as it should,
   * and the stream is open exactly as long as its descriptor was not closed.
   */
  lemma {:induction false} LifetimeCourse(link: Link, log: Log, id: u32, fd: int)
    requires Legal(link, log) && Lifetime(log, id, fd)
    ensures var es := EventsSince(link, log, id);
      Course(es, Asked(es, link.fd, id), fd) && Shown(After(log), id, fd, es)
  {
    hide Asked, Course, Shown, AskIn, Enabled, Effects, TableOk, Next, Opens;
    AskedIsIn(link, log, id);
    LifetimeGoesOn(link, log, id, fd);
  }

  lemma {:induction false} LifetimeGoesOn(link: Link, log: Log, id: u32, fd: int)
    requires Legal(link, log) && Lifetime(log, id, fd)
    ensures Course(EventsSince(link, log, id), AsksIn(LogSince(log, id), id), fd)
    ensures Shown(After(log), id, fd, EventsSince(link, log, id))
  {
    hide Course, Shown, AskIn, Enabled, Effects, TableOk, Next, Opens, EventsSince, AsksIn, LogSince, Legal, Trace, After;
    var init, a := Init(log), Final(log);
    LastStep(link, log);
    if Accepts(a, id) {
      CourseBegins(link, log, id, fd);
    } else {
      LifetimeGoesOn(link, init, id, fd);
      RunsKeepTable(link, init);
      LifetimeFacts(link, init, id, fd);
      SinceStep(link, log, id);
      ShownStep(link, After(init), a, id, fd, EventsSince(link, init, id));
      CourseStep(link, After(init), a, id, fd, EventsSince(link, init, id), AsksIn(LogSince(init, id), id));
    }
  }

  lemma {:induction false} CourseBegins(link: Link, log: Log, id: u32, fd: int)
    requires Legal(link, log) && Lifetime(log, id, fd) && Accepts(Final(log), id)
    ensures Course(EventsSince(link, log, id), AsksIn(LogSince(log, id), id), fd)
    ensures Shown(After(log), id, fd, EventsSince(link, log, id))
  {
    hide Enabled, Effects;
  }

  /**
   * While a stream is open, its target has been half-closed exactly if the client
   * has finished, and that is exactly if a finish was received since the start.
   */
  lemma {:induction false} FinishReachesTarget(link: Link, log: Log, id: u32, fd: int)
    requires Legal(link, log) && Lifetime(log, id, fd) && id in After(log)
    ensures var es, since := EventsSince(link, log, id), LogSince(log, id);
      && (HalfClosed(fd) in es <==> exists i :: 0 <= i < |since| && since[i].ClientFin? && since[i].id == id)
      && (HalfClosed(fd) in es <==> Finish in Asked(es, link.fd, id))
      && (ReadEnd(fd) in es <==> exists i :: 0 <= i < |since| && since[i].TargetFin? && since[i].id == id)
      && Closed(fd) !in es && Abort !in Asked(es, link.fd, id)
  {
    hide Asked, Enabled, Effects, Next, Opens, EventsSince, AsksIn, LogSince, Legal, Trace, After, EndingIn;
    LifetimeCourse(link, log, id, fd);
    LifetimeAccepted(log, id, fd);
    EndsExactly(link, log, id);
    EndingMeans(LogSince(log, id), id);
  }

  lemma {:induction false} LifetimeAccepted(log: Log, id: u32, fd: int)
    requires Lifetime(log, id, fd)
    ensures WasAccepted(log, id)
  {
    if !Accepts(Final(log), id) {
      LifetimeAccepted(Init(log), id, fd);
    }
  }
}
