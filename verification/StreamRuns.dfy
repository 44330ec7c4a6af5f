/** What holds over whole runs of the multiplexer: independence, fidelity of both byte streams, and the output grammar. */
module StreamRuns {
  import opened Bytes
  import opened Frame
  import opened Kernel
  import opened Options
  import opened Sequences
  import opened Streams
  import opened Wire

  // -------------------------------------------------------------------------
  // Independence: a stream in a run behaves as the stream run alone
  // -------------------------------------------------------------------------

  function Names(a: Action): Option<u32> {
    match a
    case OpenAccepted(id, _, _) => Some(id)
    case OpenUnreachable(id, _, _) => Some(id)
    case OpenFull(id, _, _, _) => Some(id)
    case ClientData(id, _, _) => Some(id)
    case ClientFin(id, _) => Some(id)
    case ClientAbort(id, _) => Some(id)
    case TargetData(id, _) => Some(id)
    case TargetFin(id) => Some(id)
    case Aside(_) => None
  }

  function View(t: Table, id: u32): Option<Stream> {
    if id in t then Some(t[id]) else None
  }

  /** The actions of a run that concern one stream. */
  function Only(log: Log, id: u32): Log {
    if log == [] then []
    else if Names(Final(log)) == Some(id) then Only(Init(log), id) + [Final(log)]
    else Only(Init(log), id)
  }

  /** The part of a run's trace that the actions of one stream contribute. */
  function TraceOf(link: Link, log: Log, id: u32): seq<Event> {
    if log == [] then []
    else
      var own := Names(Final(log)) == Some(id);
      TraceOf(link, Init(log), id) + (if own then Effects(link, After(Init(log)), Final(log)) else [])
  }

  lemma {:induction false} OwnActionsOnly(link: Link, t: Table, t': Table, a: Action, id: u32)
    ensures Names(a) != Some(id) ==> View(Next(t, a), id) == View(t, id)
    ensures Names(a) == Some(id) && View(t, id) == View(t', id) ==>
      View(Next(t, a), id) == View(Next(t', a), id) && Effects(link, t, a) == Effects(link, t', a)
  {
  }

  /** The state and the visible doings of a stream are those of a run of its own actions alone. */
  lemma {:induction false} StreamsAreIndependent(link: Link, log: Log, id: u32)
    ensures View(After(log), id) == View(After(Only(log, id)), id)
    ensures TraceOf(link, log, id) == Trace(link, Only(log, id))
  {
    if log != [] {
      StreamsAreIndependent(link, Init(log), id);
      OwnActionsOnly(link, After(Init(log)), After(Only(Init(log), id)), Final(log), id);
      LogStep(link, Only(Init(log), id), Final(log));
      hide Next, Effects, View;
    }
  }

  // -------------------------------------------------------------------------
  // Ending a stream
  // -------------------------------------------------------------------------

  predicate WasAccepted(log: Log, id: u32) {
    log != [] && (Accepts(Final(log), id) || WasAccepted(Init(log), id))
  }

  /** How a stretch of a run has ended a stream: both halves finished, or aborted. */
  datatype Ending = Ending(clientFin: bool, targetFin: bool, aborted: bool)

  function Noted(e: Ending, a: Action, id: u32): Ending {
    match a
    case ClientFin(i, _) => if i == id then e.(clientFin := true) else e
    case TargetFin(i) => if i == id then e.(targetFin := true) else e
    case ClientAbort(i, _) => if i == id then e.(aborted := true) else e
    case _ => e
  }

  function EndingIn(log: Log, id: u32): Ending {
    if log == [] then Ending(false, false, false) else Noted(EndingIn(Init(log), id), Final(log), id)
  }

  lemma {:induction false} EndingMeans(log: Log, id: u32)
    ensures EndingIn(log, id).clientFin <==> exists i :: 0 <= i < |log| && log[i].ClientFin? && log[i].id == id
    ensures EndingIn(log, id).targetFin <==> exists i :: 0 <= i < |log| && log[i].TargetFin? && log[i].id == id
    ensures EndingIn(log, id).aborted <==> exists i :: 0 <= i < |log| && log[i].ClientAbort? && log[i].id == id
  {
    if log != [] {
      EndingMeans(Init(log), id);
      assert forall i | 0 <= i < |log| - 1 :: Init(log)[i] == log[i];
      assert log[|log| - 1] == Final(log);
    }
  }

  /**
   * Over every run: an accepted stream is still there exactly if since its latest
   * acceptance it was not aborted and not both halves have finished; and while it
   * is there its flags say which half has.
   */
  lemma {:induction false} EndsExactly(link: Link, log: Log, id: u32)
    requires Legal(link, log) && WasAccepted(log, id)
    ensures var e := EndingIn(LogSince(log, id), id);
      && (id in After(log) <==> !e.aborted && !(e.clientFin && e.targetFin))
      && (id in After(log) ==> After(log)[id].clientFin == e.clientFin && After(log)[id].targetFin == e.targetFin)
  {
    var init, a := Init(log), Final(log);
    if !Accepts(a, id) {
      RunsKeepTable(link, init);
      EndsExactly(link, init, id);
      assert LogSince(log, id) == LogSince(init, id) + [a];
      assert Init(LogSince(log, id)) == LogSince(init, id);
      EndsStep(link, After(init), a, id, EndingIn(LogSince(init, id), id));
      hide Enabled, Next, TableOk;
    }
  }

  lemma {:induction false} EndsStep(link: Link, t: Table, a: Action, id: u32, e: Ending)
    requires TableOk(link, t) && Enabled(link, t, a) && !Accepts(a, id)
    requires id in t <==> !e.aborted && !(e.clientFin && e.targetFin)
    requires id in t ==> t[id].clientFin == e.clientFin && t[id].targetFin == e.targetFin
    ensures var e' := Noted(e, a, id);
      var t' := Next(t, a);
      && (id in t' <==> !e'.aborted && !(e'.clientFin && e'.targetFin))
      && (id in t' ==> t'[id].clientFin == e'.clientFin && t'[id].targetFin == e'.targetFin)
  {
  }

  /** Both orders of finishing lead to the same table and close the descriptor once. */
  lemma {:induction false} FinsCommute(link: Link, t: Table, id: u32, raw: Msg)
    requires TableOk(link, t) && id in t && !t[id].clientFin && !t[id].targetFin
    ensures var c, r := ClientFin(id, raw), TargetFin(id);
      && Next(Next(t, c), r) == Next(Next(t, r), c) == t - {id}
      && Closed(t[id].fd) !in Effects(link, t, c) && Closed(t[id].fd) !in Effects(link, t, r)
      && multiset(Effects(link, t, c) + Effects(link, Next(t, c), r))[Closed(t[id].fd)] == 1
      && multiset(Effects(link, t, r) + Effects(link, Next(t, r), c))[Closed(t[id].fd)] == 1
  {
    var c, r := ClientFin(id, raw), TargetFin(id);
    assert t[id := t[id].(clientFin := true)] - {id} == t - {id};
    assert t[id := t[id].(targetFin := true)] - {id} == t - {id};
  }

  // -------------------------------------------------------------------------
  // What the peer is sent about a stream (module Hearing says when it hears just that)
  // -------------------------------------------------------------------------

  datatype Sym = Payload(data: seq<byte>) | Finished | Denied(reason: u16)

  /** A sent message as far as it concerns a stream, read as the peer's decoder reads it. */
  function SymOf(m: Msg, id: u32): Option<Sym> {
    if m.typ == MSG_SOCKS_STREAM_DATA then
      var d :- ParseSocksData(m.payload);
      if d.streamId == id then Some(Payload(d.data)) else None
    else if m.typ == MSG_SOCKS_STREAM_CLOSE then
      var c :- ParseSocksClose(m.payload);
      if c.streamId != id then None else Some(if HasFin(c.flags) then Finished else Denied(c.reason))
    else None
  }

  function Told(es: seq<Event>, id: u32): seq<Sym> {
    if es == [] then []
    else
      var before := Told(es[..|es| - 1], id);
      var e := es[|es| - 1];
      if e.Sent? && SymOf(e.msg, id).Some? then before + [SymOf(e.msg, id).value] else before
  }

  lemma {:induction false} ToldConcat(a: seq<Event>, b: seq<Event>, id: u32)
    ensures Told(a + b, id) == Told(a, id) + Told(b, id)
  {
    hide SymOf;
    if b == [] {
      assert a + b == a;
    } else {
      ToldConcat(a, b[..|b| - 1], id);
      assert (a + b)[..|a + b| - 1] == a + b[..|b| - 1];
    }
  }

  /** What an action tells the peer about a stream. */
  function ToldBy(a: Action, id: u32): seq<Sym> {
    match a
    case OpenUnreachable(i, _, told) => if i == id && told then [Denied(REASON_TARGET_CONNECT_FAILED)] else []
    case OpenFull(i, _, _, told) => if i == id && told then [Denied(REASON_RESOURCE_LIMITED)] else []
    case TargetData(i, data) => if i == id then [Payload(data)] else []
    case TargetFin(i) => if i == id then [Finished] else []
    case _ => []
  }

  lemma {:induction false} DataSym(link: Link, i: u32, data: seq<byte>, id: u32)
    requires i != 0 && 0 < |data| <= READ_CHUNK
    ensures SymOf(DataMsg(link, i, data), id) == if i == id then Some(Payload(data)) else None
  {
    SocksDataExact(SocksDataLayout(SocksData(i, data)), SocksData(i, data));
  }

  lemma {:induction false} CloseSym(link: Link, i: u32, reason: u16, flags: u16, id: u32)
    requires i != 0
    ensures SymOf(CloseMsg(link, i, reason, flags), id)
      == if i == id then Some(if HasFin(flags) then Finished else Denied(reason)) else None
  {
    SocksCloseExact(SocksCloseLayout(SocksClose(i, reason, flags)), SocksClose(i, reason, flags));
  }

  lemma {:induction false} AsideIsSilent(link: Link, t: Table, es: seq<Event>, id: u32)
    requires AsideOk(link, t, es)
    ensures Told(es, id) == []
  {
    if es != [] {
      AsideIsSilent(link, t, es[..|es| - 1], id);
      assert AsideOk(link, t, es);
      var e := es[|es| - 1];
    }
  }

  ghost predicate Quiet(es: seq<Event>) {
    forall i | 0 <= i < |es| :: !es[i].Sent?
  }

  lemma {:induction false} QuietTold(es: seq<Event>, id: u32)
    requires Quiet(es)
    ensures Told(es, id) == []
  {
    if es != [] {
      QuietTold(es[..|es| - 1], id);
    }
  }

  function Heads(m: Msg, id: u32): seq<Sym> {
    if SymOf(m, id).Some? then [SymOf(m, id).value] else []
  }

  lemma {:induction false} TellOnce(quiet: seq<Event>, fd: int, m: Msg, tail: seq<Event>, id: u32)
    requires Quiet(quiet) && Quiet(tail)
    ensures Told(quiet + [Sent(fd, m)] + tail, id) == Heads(m, id)
    ensures Told(quiet + [Sent(fd, m)], id) == Heads(m, id)
  {
    hide SymOf;
    var es := quiet + [Sent(fd, m)];
    assert es[..|es| - 1] == quiet;
    QuietTold(quiet, id);
    QuietTold(tail, id);
    ToldConcat(es, tail, id);
  }

  /** The trace tells the peer what the actions say: the messages decode to the right stream and content. */
  lemma {:induction false} EffectsTell(link: Link, t: Table, a: Action, id: u32)
    requires TableOk(link, t) && Enabled(link, t, a)
    ensures Told(Effects(link, t, a), id) == ToldBy(a, id)
  {
    match a
    case OpenUnreachable(i, raw, told) => RefusalTells(link, t, a, i, raw, id);
    case OpenFull(i, raw, target, told) => RefusalTells(link, t, a, i, raw, id);
    case TargetData(i, data) => DataTells(link, t, i, data, id);
    case TargetFin(i) => FinTells(link, t, i, id);
    case Aside(events) => AsideIsSilent(link, t, events, id);
    case _ => QuietTold(Effects(link, t, a), id);
  }

  lemma {:induction false} RefusalTells(link: Link, t: Table, a: Action, i: u32, raw: Msg, id: u32)
    requires a.OpenUnreachable? || a.OpenFull?
    requires a.id == i && a.raw == raw && IsOpen(raw, i)
    ensures Told(Effects(link, t, a), id) == ToldBy(a, id)
  {
    OpenIdNonZero(raw, i);
    var quiet := if a.OpenFull? then [Received(link.fd, raw), Opened(a.target), DialedFor(raw, a.target), Closed(a.target)]
      else [Received(link.fd, raw), FailedFor(raw)];
    var reason := if a.OpenFull? then REASON_RESOURCE_LIMITED else REASON_TARGET_CONNECT_FAILED;
    hide Told, IsOpen, CloseAttempt;
    assert Effects(link, t, a) == quiet + [CloseAttempt(link, i, reason, 0, a.told)];
    RefusalSays(quiet, link, i, reason, a.told, id);
  }

  lemma {:induction false} RefusalSays(quiet: seq<Event>, link: Link, i: u32, reason: u16, told: bool, id: u32)
    requires Quiet(quiet) && i != 0
    ensures Told(quiet + [CloseAttempt(link, i, reason, 0, told)], id) == if told && i == id then [Denied(reason)] else []
  {
    hide Told, SymOf, CloseMsg;
    CloseSym(link, i, reason, 0, id);
    if told {
      TellOnce(quiet, link.fd, CloseMsg(link, i, reason, 0), [], id);
    } else {
      QuietTold(quiet + [CloseAttempt(link, i, reason, 0, told)], id);
    }
  }

  lemma {:induction false} DataTells(link: Link, t: Table, i: u32, data: seq<byte>, id: u32)
    requires i in t && i != 0 && 0 < |data| <= READ_CHUNK
    ensures Told(Effects(link, t, TargetData(i, data)), id) == ToldBy(TargetData(i, data), id)
  {
    hide Told, SymOf, DataMsg;
    DataSym(link, i, data, id);
    TellOnce([Read(t[i].fd, data)], link.fd, DataMsg(link, i, data), [], id);
    assert Effects(link, t, TargetData(i, data)) == [Read(t[i].fd, data)] + [Sent(link.fd, DataMsg(link, i, data))];
  }

  lemma {:induction false} FinTells(link: Link, t: Table, i: u32, id: u32)
    requires i in t && i != 0
    ensures Told(Effects(link, t, TargetFin(i)), id) == ToldBy(TargetFin(i), id)
  {
    hide Told, SymOf, CloseMsg;
    CloseSym(link, i, REASON_REMOTE_CLOSED, FLAG_FIN, id);
    var m := CloseMsg(link, i, REASON_REMOTE_CLOSED, FLAG_FIN);
    var tail := if t[i].clientFin then [Closed(t[i].fd)] else [];
    TellOnce([ReadEnd(t[i].fd)], link.fd, m, tail, id);
    assert Effects(link, t, TargetFin(i)) == [ReadEnd(t[i].fd)] + [Sent(link.fd, m)] + tail;
  }

  // -------------------------------------------------------------------------
  // Output grammar
  // -------------------------------------------------------------------------

  predicate Accepts(a: Action, id: u32) {
    a.OpenAccepted? && a.id == id
  }

  /** The events since the stream was last accepted, or since the beginning. */
  function EventsSince(link: Link, log: Log, id: u32): seq<Event> {
    if log == [] || Accepts(Final(log), id) then []
    else EventsSince(link, Init(log), id) + Effects(link, After(Init(log)), Final(log))
  }

  /** The same in terms of the actions. */
  function OutputSince(log: Log, id: u32): seq<Sym> {
    if log == [] || Accepts(Final(log), id) then [] else OutputSince(Init(log), id) + ToldBy(Final(log), id)
  }

  lemma {:induction false} OutputIsTold(link: Link, log: Log, id: u32)
    requires Legal(link, log)
    ensures Told(EventsSince(link, log, id), id) == OutputSince(log, id)
  {
    if log != [] && !Accepts(Final(log), id) {
      hide Told, ToldBy, Enabled, Effects, TableOk;
      OutputIsTold(link, Init(log), id);
      RunsKeepTable(link, Init(log));
      EffectsTell(link, After(Init(log)), Final(log), id);
      ToldConcat(EventsSince(link, Init(log), id), Effects(link, After(Init(log)), Final(log)), id);
    }
  }

  /** Data, then at most one finish, then nothing but refusals. */
  predicate Grammatical(o: seq<Sym>) {
    forall i, j | 0 <= i < j < |o| :: o[i].Payload? || o[j].Denied?
  }

  /** While the stream lives: only data before its finish, and the finish last. */
  predicate GrammaticalLive(o: seq<Sym>, finished: bool) {
    && (forall i | 0 <= i < |o| :: o[i].Payload? || (finished && i == |o| - 1 && o[i].Finished?))
    && (finished ==> o != [] && o[|o| - 1].Finished?)
  }

  lemma {:induction false} OutputStep(t: Table, a: Action, id: u32, o: seq<Sym>)
    requires !Accepts(a, id)
    requires (a.OpenUnreachable? || a.OpenFull?) && a.id == id ==> id !in t
    requires (a.TargetData? || a.TargetFin?) && a.id == id ==> id in t && !t[id].targetFin
    requires Grammatical(o)
    requires id in t ==> GrammaticalLive(o, t[id].targetFin)
    ensures Grammatical(o + ToldBy(a, id))
    ensures id in Next(t, a) ==> GrammaticalLive(o + ToldBy(a, id), Next(t, a)[id].targetFin)
  {
    if ToldBy(a, id) == [] {
      assert o + ToldBy(a, id) == o;
    }
  }

  /**
   * For every run and every stream, the messages sent for it since it was last
   * accepted are data, then at most one finish, and then at most refusals of
   * further attempts to open it. While it lives, the finish has been sent
   * exactly when the target has finished, and nothing follows it.
   */
  lemma {:induction false} OutputGrammar(link: Link, log: Log, id: u32)
    requires Legal(link, log)
    ensures Grammatical(Told(EventsSince(link, log, id), id))
    ensures id in After(log) ==> GrammaticalLive(Told(EventsSince(link, log, id), id), After(log)[id].targetFin)
  {
    OutputIsTold(link, log, id);
    hide Told;
    if log != [] && !Accepts(Final(log), id) {
      OutputGrammar(link, Init(log), id);
      OutputIsTold(link, Init(log), id);
      hide ToldBy, Grammatical, GrammaticalLive, Next, EventsSince;
      OutputStep(After(Init(log)), Final(log), id, OutputSince(Init(log), id));
    }
  }

  /** What is sent for a stream that is not open is the refusal of an attempt to open it. */
  lemma {:induction false} ClosedIsSilent(link: Link, t: Table, a: Action, id: u32)
    requires TableOk(link, t) && Enabled(link, t, a) && id !in t
    ensures Told(Effects(link, t, a), id) != [] ==> (a.OpenUnreachable? || a.OpenFull?) && IsOpen(a.raw, id)
  {
    EffectsTell(link, t, a, id);
    hide Told, Effects;
  }

  // -------------------------------------------------------------------------
  // Fidelity of the two byte streams
  // -------------------------------------------------------------------------

  /** The bytes written to a descriptor since it was last opened. */
  function WrittenSince(trace: seq<Event>, fd: int): seq<byte> {
    if trace == [] then []
    else
      var before := WrittenSince(trace[..|trace| - 1], fd);
      match trace[|trace| - 1]
      case Opened(f) => if f == fd then [] else before
      case Wrote(f, b) => if f == fd then before + b else before
      case _ => before
  }

  /** The bytes read from a descriptor since it was last opened. */
  function ReadSince(trace: seq<Event>, fd: int): seq<byte> {
    if trace == [] then []
    else
      var before := ReadSince(trace[..|trace| - 1], fd);
      match trace[|trace| - 1]
      case Opened(f) => if f == fd then [] else before
      case Read(f, b) => if f == fd then before + b else before
      case _ => before
  }

  /** The payloads received for a stream in a stretch of a run, up to its first finish or abort. */
  function Delivered(log: Log, id: u32): seq<byte> {
    if log == [] then []
    else match log[0]
      case ClientData(i, _, data) => if i == id then data + Delivered(log[1..], id) else Delivered(log[1..], id)
      case ClientFin(i, _) => if i == id then [] else Delivered(log[1..], id)
      case ClientAbort(i, _) => if i == id then [] else Delivered(log[1..], id)
      case _ => Delivered(log[1..], id)
  }

  function PayloadOf(o: seq<Sym>): seq<byte> {
    if o == [] then []
    else
      var before := PayloadOf(o[..|o| - 1]);
      match o[|o| - 1]
      case Payload(data) => before + data
      case _ => before
  }

  /** The actions since the stream was last accepted. */
  function LogSince(log: Log, id: u32): Log {
    if log == [] || Accepts(Final(log), id) then [] else LogSince(Init(log), id) + [Final(log)]
  }

  /** Whether an action takes a descriptor into use. */
  predicate Opens(a: Action, fd: int) {
    match a
    case OpenAccepted(_, _, target) => target == fd
    case OpenFull(_, _, target, _) => target == fd
    case Aside(events) => Opened(fd) in events
    case _ => false
  }

  /** The latest lifetime of the stream uses this descriptor, which has not been taken into use again since. */
  predicate Lifetime(log: Log, id: u32, fd: int) {
    log != []
    && if Accepts(Final(log), id) then Final(log).target == fd
       else Lifetime(Init(log), id, fd) && !Opens(Final(log), fd)
  }

  predicate Stopped(log: Log, id: u32) {
    exists i | 0 <= i < |log| :: (log[i].ClientFin? || log[i].ClientAbort?) && log[i].id == id
  }

  lemma {:induction false} DeliveredStep(log: Log, a: Action, id: u32)
    ensures Delivered(log + [a], id)
      == Delivered(log, id) + if !Stopped(log, id) && a.ClientData? && a.id == id then a.data else []
  {
    if log == [] {
      assert (log + [a])[1..] == [];
      assert !Stopped(log, id);
    } else {
      assert (log + [a])[1..] == log[1..] + [a];
      DeliveredStep(log[1..], a, id);
      assert Stopped(log, id) <==> ((log[0].ClientFin? || log[0].ClientAbort?) && log[0].id == id) || Stopped(log[1..], id) by {
        assert forall i | 0 < i < |log| :: log[i] == log[1..][i - 1];
      }
    }
  }

  /** What a lifetime's descriptor is in the table: the stream's own while it lives, and no other stream's ever. */
  ghost predicate Owned(t: Table, id: u32, fd: int) {
    && (id in t ==> t[id].fd == fd)
    && forall j | j in t && j != id :: t[j].fd != fd
  }

  predicate Receiving(t: Table, id: u32) {
    id in t && !t[id].clientFin
  }

  lemma {:induction false} OwnedStep(link: Link, t: Table, a: Action, id: u32, fd: int)
    requires TableOk(link, t) && Enabled(link, t, a)
    ensures Accepts(a, id) && a.target == fd ==> Owned(Next(t, a), id, fd) && Receiving(Next(t, a), id)
    ensures Owned(t, id, fd) && !Accepts(a, id) && !Opens(a, fd) ==> Owned(Next(t, a), id, fd)
    ensures !Accepts(a, id) ==>
      (Receiving(Next(t, a), id) <==> Receiving(t, id) && !((a.ClientFin? || a.ClientAbort?) && a.id == id))
  {
  }

  lemma {:induction false} LifetimeFacts(link: Link, log: Log, id: u32, fd: int)
    requires Legal(link, log) && Lifetime(log, id, fd)
    ensures Owned(After(log), id, fd)
    ensures Receiving(After(log), id) <==> !Stopped(LogSince(log, id), id)
  {
    RunsKeepTable(link, Init(log));
    OwnedStep(link, After(Init(log)), Final(log), id, fd);
    if !Accepts(Final(log), id) {
      LifetimeFacts(link, Init(log), id, fd);
      StoppedStep(LogSince(Init(log), id), Final(log), id);
    }
  }

  lemma {:induction false} StoppedStep(log: Log, a: Action, id: u32)
    ensures Stopped(log + [a], id) <==> Stopped(log, id) || ((a.ClientFin? || a.ClientAbort?) && a.id == id)
  {
    assert forall i | 0 <= i < |log| :: (log + [a])[i] == log[i];
    assert (log + [a])[|log|] == a;
  }

  lemma {:induction false} WrittenConcat(trace: seq<Event>, es: seq<Event>, fd: int)
    requires Opened(fd) !in es
    ensures WrittenSince(trace + es, fd) == WrittenSince(trace, fd) + WrittenSince(es, fd)
  {
    if es == [] {
      assert trace + es == trace;
    } else {
      var n := |es| - 1;
      WrittenConcat(trace, es[..n], fd);
      assert (trace + es)[..|trace + es| - 1] == trace + es[..n];
    }
  }

  lemma {:induction false} ReadConcat(trace: seq<Event>, es: seq<Event>, fd: int)
    requires Opened(fd) !in es
    ensures ReadSince(trace + es, fd) == ReadSince(trace, fd) + ReadSince(es, fd)
  {
    if es == [] {
      assert trace + es == trace;
    } else {
      var n := |es| - 1;
      ReadConcat(trace, es[..n], fd);
      assert (trace + es)[..|trace + es| - 1] == trace + es[..n];
    }
  }

  lemma {:induction false} SinceConcat(trace: seq<Event>, es: seq<Event>, fd: int)
    requires Opened(fd) !in es
    ensures WrittenSince(trace + es, fd) == WrittenSince(trace, fd) + WrittenSince(es, fd)
    ensures ReadSince(trace + es, fd) == ReadSince(trace, fd) + ReadSince(es, fd)
  {
    hide WrittenSince, ReadSince;
    WrittenConcat(trace, es, fd);
    ReadConcat(trace, es, fd);
  }

  lemma {:induction false} SinceOpened(trace: seq<Event>, raw: Event, fd: int, dialed: Event)
    requires dialed.Dialed?
    ensures var es := trace + [raw, Opened(fd), dialed];
      WrittenSince(es, fd) == [] && ReadSince(es, fd) == []
  {
    var es := trace + [raw, Opened(fd), dialed];
    var before := es[..|es| - 1];
    assert before == trace + [raw, Opened(fd)];
    assert before[|before| - 1] == Opened(fd) && es[|es| - 1] == dialed;
  }

  /** An event that moves no bytes of a descriptor. */
  predicate Still(e: Event, fd: int) {
    !(e.Opened? && e.fd == fd) && !(e.Wrote? && e.fd == fd) && !(e.Read? && e.fd == fd)
  }

  lemma {:induction false} StillSince(es: seq<Event>, fd: int)
    requires forall i | 0 <= i < |es| :: Still(es[i], fd)
    ensures WrittenSince(es, fd) == [] && ReadSince(es, fd) == [] && Opened(fd) !in es
  {
    if es != [] {
      StillSince(es[..|es| - 1], fd);
      Snoc(es);
    }
  }

  lemma {:induction false} LastMoves(es: seq<Event>, fd: int)
    requires es != [] && !es[|es| - 1].Opened?
    ensures var before, e := es[..|es| - 1], es[|es| - 1];
      && WrittenSince(es, fd) == WrittenSince(before, fd) + (if e.Wrote? && e.fd == fd then e.bytes else [])
      && ReadSince(es, fd) == ReadSince(before, fd) + (if e.Read? && e.fd == fd then e.bytes else [])
  {
  }

  lemma {:induction false} MovedLast(es: seq<Event>, e: Event, fd: int)
    requires forall i | 0 <= i < |es| :: Still(es[i], fd)
    requires (e.Wrote? || e.Read?) && e.fd == fd
    ensures WrittenSince(es + [e], fd) == (if e.Wrote? then e.bytes else [])
    ensures ReadSince(es + [e], fd) == (if e.Read? then e.bytes else [])
    ensures Opened(fd) !in es + [e]
  {
    StillSince(es, fd);
    LastMoves(es + [e], fd);
    assert (es + [e])[..|es|] == es;
    hide *;
  }

  predicate MovesUp(t: Table, a: Action, fd: int) {
    a.ClientData? && Receiving(t, a.id) && t[a.id].fd == fd
  }

  predicate MovesDown(t: Table, a: Action, fd: int) {
    a.TargetData? && a.id in t && t[a.id].fd == fd
  }

  lemma {:induction false} OthersStill(link: Link, t: Table, a: Action, fd: int)
    requires Enabled(link, t, a) && !Opens(a, fd)
    requires !MovesUp(t, a, fd) && !MovesDown(t, a, fd)
    ensures forall i | 0 <= i < |Effects(link, t, a)| :: Still(Effects(link, t, a)[i], fd)
  {
    hide CloseMsg, DataMsg, IsOpen, IsClose, ParseSocksData, IsTestFrame;
    match a
    case Aside(events) =>
      assert forall i | 0 <= i < |events| :: events[i] != Opened(fd);
    case _ =>
  }

  /** The bytes that an action moves through a descriptor it does not open. */
  lemma {:induction false} EffectsMove(link: Link, t: Table, a: Action, fd: int)
    requires Enabled(link, t, a) && !Opens(a, fd)
    ensures Opened(fd) !in Effects(link, t, a)
    ensures WrittenSince(Effects(link, t, a), fd) == if MovesUp(t, a, fd) then a.data else []
    ensures ReadSince(Effects(link, t, a), fd) == if MovesDown(t, a, fd) then a.data else []
  {
    if MovesUp(t, a, fd) {
      hide WrittenSince, ReadSince, Enabled;
      MovedLast([Received(link.fd, a.raw)], Wrote(fd, a.data), fd);
    } else if MovesDown(t, a, fd) {
      hide WrittenSince, ReadSince, Enabled;
      var sent := Sent(link.fd, DataMsg(link, a.id, a.data));
      MovedLast([], Read(fd, a.data), fd);
      StillSince([sent], fd);
      SinceConcat([] + [Read(fd, a.data)], [sent], fd);
      assert Effects(link, t, a) == [] + [Read(fd, a.data)] + [sent];
    } else {
      OthersStill(link, t, a, fd);
      hide WrittenSince, ReadSince, Enabled, Effects, Still;
      StillSince(Effects(link, t, a), fd);
    }
  }

  /**
   * Upload fidelity. In every run, what has been written to the target of a
   * stream's latest lifetime is exactly, in order, the payloads received for
   * that stream from its acceptance up to its first finish or abort.
   */
  lemma {:induction false} UploadIsFaithful(link: Link, log: Log, id: u32, fd: int)
    requires Legal(link, log) && Lifetime(log, id, fd)
    ensures WrittenSince(Trace(link, log), fd) == Delivered(LogSince(log, id), id)
  {
    var t, a := After(Init(log)), Final(log);
    RunsKeepTable(link, Init(log));
    if Accepts(a, id) {
      SinceOpened(Trace(link, Init(log)), Received(link.fd, a.raw), fd, DialedFor(a.raw, fd));
    } else {
      UploadIsFaithful(link, Init(log), id, fd);
      LifetimeFacts(link, Init(log), id, fd);
      EffectsMove(link, t, a, fd);
      SinceConcat(Trace(link, Init(log)), Effects(link, t, a), fd);
      DeliveredStep(LogSince(Init(log), id), a, id);
      hide WrittenSince, Delivered, Effects, Enabled, Stopped, TableOk, Opens;
    }
  }

  lemma {:induction false} PayloadConcat(o: seq<Sym>, p: seq<Sym>)
    requires |p| <= 1
    ensures PayloadOf(o + p) == PayloadOf(o) + PayloadOf(p)
  {
    if p == [] {
      assert o + p == o;
    } else {
      assert (o + p)[..|o|] == o && p[..0] == [];
    }
  }

  /**
   * Download fidelity. In every run, the payloads sent for a stream since its
   * acceptance concatenate to exactly the bytes read from its target.
   */
  lemma {:induction false} DownloadIsFaithful(link: Link, log: Log, id: u32, fd: int)
    requires Legal(link, log) && Lifetime(log, id, fd)
    ensures PayloadOf(Told(EventsSince(link, log, id), id)) == ReadSince(Trace(link, log), fd)
  {
    OutputIsTold(link, log, id);
    var init := Init(log);
    var t, a := After(init), Final(log);
    RunsKeepTable(link, init);
    if Accepts(a, id) {
      SinceOpened(Trace(link, init), Received(link.fd, a.raw), fd, DialedFor(a.raw, fd));
    } else {
      assert OutputSince(log, id) == OutputSince(init, id) + ToldBy(a, id);
      assert Trace(link, log) == Trace(link, init) + Effects(link, t, a);
      LifetimeFacts(link, init, id, fd);
      EffectsMove(link, t, a, fd);
      ToldPayload(a, id);
      MovedDownIs(t, a, id, fd);
      hide ReadSince, PayloadOf, Effects, Enabled, Told, ToldBy, TableOk, Opens, EventsSince, OutputSince, After, MovesDown, Owned;
      DownloadIsFaithful(link, init, id, fd);
      OutputIsTold(link, init, id);
      SinceConcat(Trace(link, init), Effects(link, t, a), fd);
      PayloadConcat(OutputSince(init, id), ToldBy(a, id));
    }
  }

  lemma {:induction false} MovedDownIs(t: Table, a: Action, id: u32, fd: int)
    requires Owned(t, id, fd) && (a.TargetData? ==> a.id in t)
    ensures MovesDown(t, a, fd) <==> a.TargetData? && a.id == id
  {
  }

  lemma {:induction false} ToldPayload(a: Action, id: u32)
    ensures PayloadOf(ToldBy(a, id)) == if a.TargetData? && a.id == id then a.data else []
    ensures |ToldBy(a, id)| <= 1
  {
    var o := ToldBy(a, id);
    if o != [] {
      assert o[..|o| - 1] == [];
    }
  }

  /** A live stream's descriptor is that of its latest lifetime, so the fidelity of both directions holds for it. */
  lemma {:induction false} LiveHasLifetime(link: Link, log: Log, id: u32)
    requires Legal(link, log) && id in After(log)
    ensures Lifetime(log, id, After(log)[id].fd)
  {
    var t, a := After(Init(log)), Final(log);
    if !Accepts(a, id) {
      KeptFd(t, a, id);
      LiveHasLifetime(link, Init(log), id);
      NotReopened(link, t, a, id);
    }
  }

  lemma {:induction false} KeptFd(t: Table, a: Action, id: u32)
    requires id in Next(t, a) && !Accepts(a, id)
    ensures id in t && Next(t, a)[id].fd == t[id].fd
  {
  }

  lemma {:induction false} NotReopened(link: Link, t: Table, a: Action, id: u32)
    requires Enabled(link, t, a) && id in t
    ensures !Opens(a, t[id].fd)
  {
  }
}
