/**
 * The multiplexed streams as a map from stream ids, independent of the slots
 * that hold them: what every action of the control loop does to the map and
 * what it makes visible to the system.
 */
module Streams {
  import opened Bytes
  import opened Frame
  import opened Kernel
  import opened Options
  import opened Text
  import opened Wire

  const MAX_STREAMS := 32
  const READ_CHUNK := 8192

  datatype Stream = Stream(fd: int, clientFin: bool, targetFin: bool)
  type Table = map<u32, Stream>

  /** The control connection, the session that every message on it carries, and the network of every frame. */
  datatype Link = Link(fd: int, session: u32, network: u32)

  /**
   * One action of the control loop. raw is the message that caused it; told says
   * whether the refusal could be sent, which the program does not check.
   */
  datatype Action =
    | OpenAccepted(id: u32, raw: Msg, target: int)
    | OpenUnreachable(id: u32, raw: Msg, told: bool)
    | OpenFull(id: u32, raw: Msg, target: int, told: bool)
    | ClientData(id: u32, raw: Msg, data: seq<byte>)
    | ClientFin(id: u32, raw: Msg)
    | ClientAbort(id: u32, raw: Msg)
    | TargetData(id: u32, data: seq<byte>)
    | TargetFin(id: u32)
    | Aside(events: seq<Event>)

  function DataMsg(link: Link, id: u32, data: seq<byte>): Msg {
    Msg(MSG_SOCKS_STREAM_DATA, link.session, SocksDataLayout(SocksData(id, data)))
  }

  function CloseMsg(link: Link, id: u32, reason: u16, flags: u16): Msg {
    Msg(MSG_SOCKS_STREAM_CLOSE, link.session, SocksCloseLayout(SocksClose(id, reason, flags)))
  }

  function PingMsg(link: Link): Msg {
    Msg(MSG_PING, link.session, [])
  }

  predicate HasFin(flags: u16) {
    flags % 2 == 1
  }

  /** A stream with both halves finished is gone. */
  function Kept(t: Table, id: u32, s: Stream): Table {
    if s.clientFin && s.targetFin then t - {id} else t[id := s]
  }

  function Next(t: Table, a: Action): Table {
    match a
    case OpenAccepted(id, _, target) => t[id := Stream(target, false, false)]
    case ClientFin(id, _) => if id in t then Kept(t, id, t[id].(clientFin := true)) else t
    case TargetFin(id) => if id in t then Kept(t, id, t[id].(targetFin := true)) else t
    case ClientAbort(id, _) => t - {id}
    case _ => t
  }

  /** The connection that an OPEN asks for. */
  function DialedFor(raw: Msg, target: int): (e: Event)
    ensures e.Dialed?
  {
    var m := ParseSocksOpen(raw.payload);
    if m.None? then Dialed(target, "", "") else Dialed(target, Chars(CStr(m.value.host)), Dec(m.value.port))
  }

  /** The failure of that connection. */
  function FailedFor(raw: Msg): (e: Event)
    ensures e.Unreachable?
  {
    var m := ParseSocksOpen(raw.payload);
    if m.None? then Unreachable("", "") else Unreachable(Chars(CStr(m.value.host)), Dec(m.value.port))
  }

  /** A CLOSE that was sent, or could not be. */
  function CloseAttempt(link: Link, id: u32, reason: u16, flags: u16, told: bool): Event {
    var m := CloseMsg(link, id, reason, flags);
    if told then Sent(link.fd, m) else Unsent(link.fd, m)
  }

  function Effects(link: Link, t: Table, a: Action): seq<Event> {
    match a
    case OpenAccepted(_, raw, target) =>
      [Received(link.fd, raw), Opened(target), DialedFor(raw, target)]
    case OpenUnreachable(id, raw, told) =>
      [Received(link.fd, raw), FailedFor(raw), CloseAttempt(link, id, REASON_TARGET_CONNECT_FAILED, 0, told)]
    case OpenFull(id, raw, target, told) =>
      [Received(link.fd, raw), Opened(target), DialedFor(raw, target), Closed(target),
       CloseAttempt(link, id, REASON_RESOURCE_LIMITED, 0, told)]
    case ClientData(id, raw, data) =>
      [Received(link.fd, raw)] + (if id in t && !t[id].clientFin then [Wrote(t[id].fd, data)] else [])
    case ClientFin(id, raw) =>
      [Received(link.fd, raw)]
      + (if id in t then [HalfClosed(t[id].fd)] + (if t[id].targetFin then [Closed(t[id].fd)] else []) else [])
    case ClientAbort(id, raw) =>
      [Received(link.fd, raw)] + (if id in t then [Closed(t[id].fd)] else [])
    case TargetData(id, data) =>
      if id in t then [Read(t[id].fd, data), Sent(link.fd, DataMsg(link, id, data))] else []
    case TargetFin(id) =>
      if id in t then
        [ReadEnd(t[id].fd), Sent(link.fd, CloseMsg(link, id, REASON_REMOTE_CLOSED, FLAG_FIN))]
        + (if t[id].clientFin then [Closed(t[id].fd)] else [])
      else []
    case Aside(events) => events
  }

  predicate IsFrameOf(m: Msg, network: u32) {
    && m.typ == MSG_TAP_FRAME
    && ParseTapFrame(m.payload).Some?
    && ParseTapFrame(m.payload).value.networkId == network
  }

  const TEST_FRAME: seq<byte> := [0xff, 0xff, 0xff, 0xff, 0xff, 0xff, 0x02, 0x00, 0x00, 0x00, 0x00, 0x01, 0x08, 0x00]

  predicate IsTestFrame(m: Msg, network: u32) {
    IsFrameOf(m, network) && ParseTapFrame(m.payload).value.frame == TEST_FRAME
  }

  /** What the loop does beside the streams: pings, test frames, and probing clients that are not kept. */
  ghost predicate AsideOk(link: Link, t: Table, events: seq<Event>) {
    forall i | 0 <= i < |events| ::
      match events[i]
      case Sent(fd, m) => fd == link.fd && (m == PingMsg(link) || (m.session == link.session && IsTestFrame(m, link.network)))
      case Received(fd, m) => fd == link.fd && (m.typ == MSG_PONG || IsTestFrame(m, link.network))
      case Opened(fd) => forall id | id in t :: t[id].fd != fd
      case Closed(fd) => forall id | id in t :: t[id].fd != fd
      case Heard(_, _) => true
      case _ => false
  }

  ghost predicate IsOpen(raw: Msg, id: u32) {
    raw.typ == MSG_SOCKS_STREAM_OPEN && ParseSocksOpen(raw.payload).Some? && ParseSocksOpen(raw.payload).value.streamId == id
  }

  ghost predicate IsClose(raw: Msg, id: u32, fin: bool) {
    && raw.typ == MSG_SOCKS_STREAM_CLOSE
    && var c := ParseSocksClose(raw.payload);
       c.Some? && c.value.streamId == id && HasFin(c.value.flags) == fin
  }

  /** The circumstances in which the loop takes an action. */
  ghost predicate Enabled(link: Link, t: Table, a: Action) {
    match a
    case OpenAccepted(id, raw, target) =>
      IsOpen(raw, id) && id !in t && |t| < MAX_STREAMS && target != link.fd && forall j | j in t :: t[j].fd != target
    case OpenUnreachable(id, raw, _) =>
      IsOpen(raw, id) && id !in t
    case OpenFull(id, raw, target, _) =>
      IsOpen(raw, id) && id !in t && |t| == MAX_STREAMS && target != link.fd && forall j | j in t :: t[j].fd != target
    case ClientData(id, raw, data) =>
      raw.typ == MSG_SOCKS_STREAM_DATA && ParseSocksData(raw.payload) == Some(SocksData(id, data))
    case ClientFin(id, raw) => IsClose(raw, id, true)
    case ClientAbort(id, raw) => IsClose(raw, id, false)
    case TargetData(id, data) => id in t && !t[id].targetFin && 0 < |data| <= READ_CHUNK
    case TargetFin(id) => id in t && !t[id].targetFin
    case Aside(events) => AsideOk(link, t, events)
  }

  // -------------------------------------------------------------------------
  // Runs
  // -------------------------------------------------------------------------

  type Log = seq<Action>

  function Init(log: Log): Log
    requires log != []
  {
    log[..|log| - 1]
  }

  function Final(log: Log): Action
    requires log != []
  {
    log[|log| - 1]
  }

  function After(log: Log): Table {
    if log == [] then map[] else Next(After(Init(log)), Final(log))
  }

  function Trace(link: Link, log: Log): seq<Event> {
    if log == [] then [] else Trace(link, Init(log)) + Effects(link, After(Init(log)), Final(log))
  }

  /** A run: every action was taken in circumstances that allow it. */
  ghost predicate Legal(link: Link, log: Log) {
    log == [] || (Legal(link, Init(log)) && Enabled(link, After(Init(log)), Final(log)))
  }

  lemma {:induction false} LogStep(link: Link, log: Log, a: Action)
    ensures After(log + [a]) == Next(After(log), a)
    ensures Trace(link, log + [a]) == Trace(link, log) + Effects(link, After(log), a)
    ensures Legal(link, log + [a]) <==> Legal(link, log) && Enabled(link, After(log), a)
  {
    hide Next, Effects, Enabled;
    assert Init(log + [a]) == log;
  }

  // -------------------------------------------------------------------------
  // The table in every reachable state
  // -------------------------------------------------------------------------

  ghost predicate TableOk(link: Link, t: Table) {
    && |t| <= MAX_STREAMS
    && (forall id | id in t :: id != 0 && t[id].fd != link.fd && !(t[id].clientFin && t[id].targetFin))
    && (forall i, j | i in t && j in t && i != j :: t[i].fd != t[j].fd)
  }

  lemma {:induction false} OpenIdNonZero(raw: Msg, id: u32)
    requires IsOpen(raw, id)
    ensures id != 0
  {
  }

  lemma {:induction false} AddingKeeps(link: Link, t: Table, id: u32, s: Stream)
    requires TableOk(link, t) && id !in t && |t| < MAX_STREAMS
    requires id != 0 && s.fd != link.fd && !(s.clientFin && s.targetFin) && forall j | j in t :: t[j].fd != s.fd
    ensures TableOk(link, t[id := s])
  {
    assert |t[id := s]| == |t| + 1;
  }

  lemma {:induction false} RemovingKeeps(link: Link, t: Table, id: u32)
    requires TableOk(link, t)
    ensures TableOk(link, t - {id})
  {
    assert (t - {id}).Keys == t.Keys - {id};
  }

  lemma {:induction false} FinishingKeeps(link: Link, t: Table, id: u32, s: Stream)
    requires TableOk(link, t) && id in t && s.fd == t[id].fd
    ensures TableOk(link, Kept(t, id, s))
  {
    RemovingKeeps(link, t, id);
    assert t[id := s].Keys == t.Keys;
  }

  lemma {:induction false} NextKeepsTable(link: Link, t: Table, a: Action)
    requires TableOk(link, t) && Enabled(link, t, a)
    ensures TableOk(link, Next(t, a))
  {
    match a
    case OpenAccepted(id, raw, target) =>
      OpenIdNonZero(raw, id);
      AddingKeeps(link, t, id, Stream(target, false, false));
    case ClientFin(id, _) =>
      hide TableOk, Kept;
      if id in t {
        FinishingKeeps(link, t, id, t[id].(clientFin := true));
      }
    case TargetFin(id) =>
      hide TableOk, Kept;
      FinishingKeeps(link, t, id, t[id].(targetFin := true));
    case ClientAbort(id, _) =>
      hide TableOk;
      RemovingKeeps(link, t, id);
    case _ =>
  }

  /** At every point of every run: at most 32 streams, distinct descriptors, non-zero ids, none finished both ways. */
  lemma {:induction false} RunsKeepTable(link: Link, log: Log)
    requires Legal(link, log)
    ensures TableOk(link, After(log))
  {
    if log != [] {
      RunsKeepTable(link, Init(log));
      hide Next, Enabled, TableOk;
      NextKeepsTable(link, After(Init(log)), Final(log));
    } else {
      assert After(log) == map[];
    }
  }
}
