/** The control loop of a session: 32 stream slots multiplexed over one connection. */
module ControlLoop {
  import opened Accounting
  import opened Address
  import opened Bytes
  import opened DirectAccess
  import opened Frame
  import opened Kernel
  import opened Options
  import opened Slots
  import opened Streams
  import opened Wire
  import opened WireCode

  /**
   * The loop's local state. log is the run so far; pending are the events since
   * its last completed action; place says which slot holds which stream.
   */
  class Loop {
    const os: Os
    const link: Link
    const me: Identity
    const streams: array<Slot>
    const goal: Goal
    var listenFd: int
    var pings: nat
    var framesSent: nat
    var gotFrame: bool
    ghost const base: set<int>
    ghost const start: seq<Event>
    ghost var log: Log
    ghost var pending: seq<Event>
    ghost var place: map<u32, nat>

    ghost function Table(): Streams.Table
      reads this
    {
      After(log)
    }

    function Listening(): set<int>
      reads this`listenFd
    {
      if listenFd == NO_FD then {} else {listenFd}
    }

    /**
     * The slots hold the streams of the run, the trace is that of the run and the
     * pending events, and every open descriptor has one owner: the caller, the
     * listener, a stream, or (extra) the operation in progress.
     */
    ghost predicate Held(extra: set<int>)
      reads this, os, streams
    {
      && os.Valid()
      && streams.Length == MAX_STREAMS
      && link.fd in base
      && Legal(link, log)
      && Holds(streams[..], Table(), place)
      && os.trace == start + Trace(link, log) + pending
      && Owned(Table(), extra)
    }

    ghost predicate Owned(t: Streams.Table, extra: set<int>)
      reads this, os
    {
      && os.open == base + Listening() + Fds(t) + extra
      && base !! Listening() !! Fds(t) !! extra
    }

    ghost predicate Inv()
      reads this, os, streams
    {
      Held({})
    }

    constructor (os: Os, link: Link, me: Identity, goal: Goal, listenFd: int, ghost base: set<int>)
      requires os.Valid() && link.fd in base && (listenFd == NO_FD || listenFd !in base)
      requires os.open == base + if listenFd == NO_FD then {} else {listenFd}
      ensures Inv() && fresh(streams)
      ensures this.os == os && this.link == link && this.me == me && this.goal == goal
      ensures pings == 0 && framesSent == 0 && !gotFrame
      ensures log == [] && pending == [] && this.listenFd == listenFd
      ensures this.base == base && start == os.trace
    {
      this.os, this.link, this.me, this.goal := os, link, me, goal;
      this.pings, this.framesSent, this.gotFrame := 0, 0, false;
      this.listenFd := listenFd;
      this.base, this.start := base, os.trace;
      this.log, this.pending, this.place := [], [], map[];
      this.streams := new Slot[MAX_STREAMS](_ => Slot(false, 0, 0, false, false));
    }

    // ---------------------------------------------------------------------
    // Finding and telling
    // ---------------------------------------------------------------------

    method StreamFind(id: u32) returns (i: int)
      requires Inv()
      ensures -1 <= i < streams.Length
      ensures i == -1 <==> id !in Table()
      ensures id in Table() ==> id in place && i == place[id]
    {
      hide After, Trace, Legal, Fds, OpenAfter, Disciplined;
      if id == 0 {
        ZeroIsNoStream(link, log);
        return -1;
      }
      i := 0;
      while i < MAX_STREAMS
        invariant 0 <= i <= MAX_STREAMS
        invariant forall j | 0 <= j < i :: !(streams[j].active && streams[j].id == id)
      {
        if streams[i].active && streams[i].id == id {
          return;
        }
        i := i + 1;
      }
      return -1;
    }

    method SendClose(id: u32, reason: u16, flags: u16, ghost extra: set<int>) returns (told: bool)
      requires Held(extra) && id != 0
      modifies this`pending, os`trace
      ensures Held(extra)
      ensures pending == old(pending) + [CloseAttempt(link, id, reason, flags, told)]
    {
      var payload := new byte[SOCKS_CLOSE_REASON_SIZE];
      var ok := EncodeSocksCloseReason(payload, SocksClose(id, reason, flags));
      told := os.SendMsg(link.fd, Msg(MSG_SOCKS_STREAM_CLOSE, link.session, payload[..]));
      Observe([CloseAttempt(link, id, reason, flags, told)], old(os.trace));
    }

    /** Notes events that the system has just added to its trace. */
    ghost method Observe(es: seq<Event>, before: seq<Event>)
      requires before == start + Trace(link, log) + pending && os.trace == before + es
      modifies this`pending
      ensures pending == old(pending) + es && os.trace == start + Trace(link, log) + pending
    {
      Regrouped(start, Trace(link, log), pending, es);
      pending := pending + es;
    }

    /** The pending events are the effects of an action, and the slots and descriptors are as after it. */
    ghost method Commit(a: Action, newPlace: map<u32, nat>)
      requires os.Valid() && streams.Length == MAX_STREAMS && link.fd in base && Legal(link, log)
      requires os.trace == start + Trace(link, log) + pending
      requires Enabled(link, Table(), a) && pending == Effects(link, Table(), a)
      requires Holds(streams[..], Next(Table(), a), newPlace) && Owned(Next(Table(), a), {})
      modifies this`log, this`pending, this`place
      ensures Inv() && pending == [] && log == old(log) + [a] && place == newPlace
      ensures log != [] && Init(log) == old(log) && Final(log) == a
    {
      hide Enabled, Effects, Holds, Fds, Next, Trace, After, Legal;
      LogStep(link, log, a);
      Regrouped(start, Trace(link, log), [], pending);
      log, pending, place := log + [a], [], newPlace;
      Regrouped(start, Trace(link, log), [], []);
    }

    // ---------------------------------------------------------------------
    // What the control peer asks for
    // ---------------------------------------------------------------------

    /**
     * Opens a stream, or refuses it: unreachable target, or no free slot. Only an
     * undecodable request or one for a live stream fails.
     */
    method StreamOpen(raw: Msg) returns (ok: bool)
      requires Inv() && raw.typ == MSG_SOCKS_STREAM_OPEN && pending == [Received(link.fd, raw)]
      modifies this`log, this`pending, this`place, streams, os`open, os`trace
      ensures Inv()
      ensures var m := ParseSocksOpen(raw.payload);
        ok <==> m.Some? && m.value.streamId !in old(Table())
      ensures !ok ==> log == old(log) && pending == old(pending)
      ensures ok ==> pending == [] && log != [] && Init(log) == old(log)
      ensures ok ==> var a := Final(log);
        (a.OpenAccepted? || a.OpenUnreachable? || a.OpenFull?) && a.raw == raw
    {
      hide Holds, Fds, Legal, Trace, After, OpenAfter, Disciplined, ParseSocksOpen;
      var m := DecodeSocksOpen(raw.payload);
      if m.None? {
        return false;
      }
      var found := StreamFind(m.value.streamId);
      if found != -1 {
        return false;
      }
      OpenIdNonZero(raw, m.value.streamId);
      Dial(m.value.streamId, raw);
      return true;
    }

    /** Connects to the target of a new stream. */
    method Dial(id: u32, raw: Msg)
      requires Inv() && IsOpen(raw, id) && id != 0 && id !in Table() && pending == [Received(link.fd, raw)]
      modifies this`log, this`pending, this`place, streams, os`open, os`trace
      ensures Inv() && pending == [] && log != [] && Init(log) == old(log)
      ensures (Final(log).OpenAccepted? || Final(log).OpenUnreachable? || Final(log).OpenFull?) && Final(log).raw == raw
    {
      hide Holds, Fds, Legal, Trace, After, OpenAfter, Disciplined, ParseSocksOpen;
      ghost var before := os.trace;
      var target := ConnectTarget(os, raw.payload);
      if target == NO_FD {
        Observe([FailedFor(raw)], before);
        var told := SendClose(id, REASON_TARGET_CONNECT_FAILED, 0, {});
        Commit(OpenUnreachable(id, raw, told), place);
      } else {
        Observe([Opened(target), DialedFor(raw, target)], before);
        Place(id, raw, target);
      }
    }

    method Place(id: u32, raw: Msg, target: int)
      requires Held({target}) && pending == [Received(link.fd, raw), Opened(target), DialedFor(raw, target)]
      requires IsOpen(raw, id) && id != 0 && id !in Table()
      modifies this`log, this`pending, this`place, streams, os`open, os`trace
      ensures Inv() && pending == [] && log != [] && Init(log) == old(log)
      ensures (Final(log).OpenAccepted? || Final(log).OpenFull?) && Final(log).raw == raw
    {
      hide Holds, Fds, IsOpen, Legal, Trace, After, Owned, Os.Valid;
      var i := 0;
      while i < MAX_STREAMS
        invariant 0 <= i <= MAX_STREAMS
        invariant forall j | 0 <= j < i :: streams[j].active
      {
        if !streams[i].active {
          TakeSlot(i, id, raw, target);
          return;
        }
        i := i + 1;
      }
      FullExactly(streams[..], Table(), place);
      Refuse(id, raw, target);
    }

    method Refuse(id: u32, raw: Msg, target: int)
      requires Held({target}) && pending == [Received(link.fd, raw), Opened(target), DialedFor(raw, target)]
      requires IsOpen(raw, id) && id != 0 && id !in Table() && |Table()| == MAX_STREAMS
      modifies this`log, this`pending, this`place, os`open, os`trace
      ensures Inv() && pending == [] && log != [] && Init(log) == old(log)
      ensures Final(log).OpenFull? && Final(log).raw == raw
    {
      hide Holds, Fds, IsOpen, Legal, Trace, After, OpenAfter, Disciplined, Enabled, Effects, Next;
      FreshForAll(Table(), target);
      os.Close(target);
      assert os.open == base + Listening() + Fds(Table()) + {};
      Observe([Closed(target)], old(os.trace));
      var told := SendClose(id, REASON_RESOURCE_LIMITED, 0, {});
      ghost var a := OpenFull(id, raw, target, told);
      FullEnabled(link, Table(), id, raw, target, told);
      Commit(a, place);
    }

    method TakeSlot(i: nat, id: u32, raw: Msg, target: int)
      requires Held({target}) && pending == [Received(link.fd, raw), Opened(target), DialedFor(raw, target)]
      requires IsOpen(raw, id) && id !in Table()
      requires i < MAX_STREAMS && !streams[i].active
      modifies this`log, this`pending, this`place, streams
      ensures Inv() && pending == []
      ensures log == old(log) + [OpenAccepted(id, raw, target)] && Init(log) == old(log)
    {
      hide Holds, Fds, IsOpen, Legal, Trace, After, OpenAfter, Disciplined;
      ghost var t := Table();
      FullExactly(streams[..], t, place);
      FreshForAll(t, target);
      SetSlot(i, Slot(true, id, target, false, false));
      FdsAdded(t, id, Stream(target, false, false));
      HandOver(os.open, base, Listening(), Fds(t), {target}, Fds(Next(t, OpenAccepted(id, raw, target))));
      Commit(OpenAccepted(id, raw, target), place[id := i]);
    }

    /** Fills a free slot. */
    method SetSlot(i: nat, s: Slot)
      requires streams.Length == MAX_STREAMS && Holds(streams[..], Table(), place)
      requires i < MAX_STREAMS && !streams[i].active && s.active && !s.clientFin && !s.targetFin && s.id !in Table()
      modifies streams
      ensures Holds(streams[..], Table()[s.id := StreamIn(s)], place[s.id := i])
    {
      hide After;
      Activated(streams[..], Table(), place, i, s.id, s.fd);
      streams[i] := s;
      assert streams[..] == old(streams[..])[i := s];
    }

    method ChangeSlot(i: nat, s: Slot, ghost t: Streams.Table, ghost p: map<u32, nat>)
      requires i < streams.Length && Holds(streams[..], t, p)
      requires streams[i].active && s.active && s.id == streams[i].id
      modifies streams
      ensures streams[i] == s && Holds(streams[..], t[s.id := StreamIn(s)], p)
      ensures OthersSame(old(streams[..]), streams[..], i)
    {
      Changed(streams[..], t, p, i, s);
      streams[i] := s;
      assert streams[..] == old(streams[..])[i := s];
    }

    method FreeSlot(i: nat, ghost t: Streams.Table, ghost p: map<u32, nat>)
      requires i < streams.Length && Holds(streams[..], t, p) && streams[i].active
      modifies streams
      ensures !streams[i].active
      ensures var id := old(streams[i].id);
        Holds(streams[..], t - {id}, p - {id})
      ensures OthersSame(old(streams[..]), streams[..], i)
    {
      Freed(streams[..], t, p, i, streams[i].(active := false));
      streams[i] := streams[i].(active := false);
      assert streams[..] == old(streams[..])[i := streams[i]];
    }

    /** Hands a payload on to the stream's target; late or stray payloads are dropped. */
    method StreamData(raw: Msg) returns (ok: bool)
      requires Inv() && raw.typ == MSG_SOCKS_STREAM_DATA && pending == [Received(link.fd, raw)]
      modifies this`log, this`pending, this`place, os`trace
      ensures Inv()
      ensures ok ==> pending == [] && log != [] && Init(log) == old(log) && Final(log).ClientData? && Final(log).raw == raw
      ensures !ok ==> log == old(log) && StreamHalted(link, Table(), pending)
    {
      hide Holds, Fds, Legal, Trace, After, OpenAfter, Disciplined;
      var m := DecodeSocksData(raw.payload);
      if m.None? {
        return false;
      }
      var id, data := m.value.streamId, m.value.data;
      var i := StreamFind(id);
      ghost var a := ClientData(id, raw, data);
      if i == -1 {
        Commit(a, place);
        return true;
      }
      SlotOf(streams[..], Table(), place, id);
      if streams[i].clientFin {
        Commit(a, place);
        return true;
      }
      StreamIsOpen(Table(), id);
      ok := os.Write(streams[i].fd, data);
      if ok {
        Observe([Wrote(streams[i].fd, data)], old(os.trace));
        Commit(a, place);
      } else {
        ghost var k :| 0 <= k < |data| && os.trace == old(os.trace) + [Wrote(streams[i].fd, data[..k])];
        Observe([Wrote(streams[i].fd, data[..k])], old(os.trace));
      }
    }

    method StreamClose(id: u32, raw: Msg)
      requires Inv() && IsClose(raw, id, false) && pending == [Received(link.fd, raw)]
      modifies this`log, this`pending, this`place, streams, os`open, os`trace
      ensures Inv() && pending == [] && log == old(log) + [ClientAbort(id, raw)]
      ensures os.trace == old(os.trace) + if id in old(Table()) then [Closed(old(Table()[id].fd))] else []
    {
      hide Holds, Fds, IsClose, Legal, Trace, After, OpenAfter, Disciplined;
      ghost var t, p := Table(), place;
      var i := StreamFind(id);
      if i == -1 {
        NothingRemoved(t, id);
        Commit(ClientAbort(id, raw), place);
        return;
      }
      SlotOf(streams[..], t, p, id);
      assert t[id := t[id]] == t;
      Release(i, t, t[id], ClientAbort(id, raw));
    }

    method MarkClientFin(id: u32, raw: Msg)
      requires Inv() && IsClose(raw, id, true) && pending == [Received(link.fd, raw)]
      modifies this`log, this`pending, this`place, streams, os`open, os`trace
      ensures Inv() && pending == [] && log == old(log) + [ClientFin(id, raw)]
      ensures id !in old(Table()) ==> os.trace == old(os.trace)
      ensures id in old(Table()) ==>
        var s := old(Table()[id]);
        os.trace == old(os.trace) + [HalfClosed(s.fd)] + if s.targetFin then [Closed(s.fd)] else []
    {
      hide Holds, Fds, IsClose, Legal, Trace, After, OpenAfter, Disciplined;
      ghost var t, p := Table(), place;
      var i := StreamFind(id);
      if i == -1 {
        Commit(ClientFin(id, raw), place);
        return;
      }
      SlotOf(streams[..], t, p, id);
      StreamIsOpen(t, id);
      ChangeSlot(i, streams[i].(clientFin := true), t, p);
      os.ShutdownSend(streams[i].fd);
      Observe([HalfClosed(streams[i].fd)], old(os.trace));
      FinishHalf(i, t, t[id].(clientFin := true), ClientFin(id, raw));
    }

    method MarkTargetFin(id: u32)
      requires Inv() && id in Table() && !Table()[id].targetFin
      requires id in place
      requires pending == [ReadEnd(Table()[id].fd), Sent(link.fd, CloseMsg(link, id, REASON_REMOTE_CLOSED, FLAG_FIN))]
      modifies this`log, this`pending, this`place, streams, os`open, os`trace
      ensures Inv() && pending == [] && log == old(log) + [TargetFin(id)]
      ensures os.trace == old(os.trace) + if old(Table()[id].clientFin) then [Closed(old(Table()[id].fd))] else []
      ensures OthersSame(old(streams[..]), streams[..], old(place)[id])
    {
      hide Holds, Fds, Legal, Trace, After, OpenAfter, Disciplined;
      ghost var t, p := Table(), place;
      var i := StreamFind(id);
      SlotOf(streams[..], t, p, id);
      ChangeSlot(i, streams[i].(targetFin := true), t, p);
      FinishHalf(i, t, t[id].(targetFin := true), TargetFin(id));
    }

    /** Releases the slot if now both halves have finished. */
    method FinishHalf(i: nat, ghost t: Streams.Table, ghost s: Stream, ghost a: Action)
      requires os.Valid() && streams.Length == MAX_STREAMS && link.fd in base && Legal(link, log) && t == Table()
      requires os.trace == start + Trace(link, log) + pending
      requires i < MAX_STREAMS && streams[i].active && streams[i].id in t && StreamIn(streams[i]) == s
      requires s.fd == t[streams[i].id].fd && Holds(streams[..], t[streams[i].id := s], place)
      requires Owned(t, {})
      requires Enabled(link, t, a) && Next(t, a) == Kept(t, streams[i].id, s)
      requires Effects(link, t, a) == pending + if s.clientFin && s.targetFin then [Closed(s.fd)] else []
      modifies this`log, this`pending, this`place, streams, os`open, os`trace
      ensures Inv() && pending == [] && log == old(log) + [a]
      ensures os.trace == old(os.trace) + if s.clientFin && s.targetFin then [Closed(s.fd)] else []
      ensures OthersSame(old(streams[..]), streams[..], i)
    {
      hide Holds, Fds, Legal, Trace, After, OpenAfter, Disciplined, Enabled, Effects, Next;
      if streams[i].clientFin && streams[i].targetFin {
        Release(i, t, s, a);
      } else {
        FdsChanged(t, streams[i].id, s);
        assert pending + [] == pending;
        Commit(a, place);
      }
    }

    /** Closes a stream's descriptor and frees its slot. */
    method Release(i: nat, ghost t: Streams.Table, ghost s: Stream, ghost a: Action)
      requires os.Valid() && streams.Length == MAX_STREAMS && link.fd in base && Legal(link, log) && t == Table()
      requires os.trace == start + Trace(link, log) + pending
      requires i < MAX_STREAMS && streams[i].active && streams[i].id in t && StreamIn(streams[i]) == s
      requires s.fd == t[streams[i].id].fd && Holds(streams[..], t[streams[i].id := s], place)
      requires Owned(t, {})
      requires Enabled(link, t, a) && Next(t, a) == t - {streams[i].id}
      requires Effects(link, t, a) == pending + [Closed(s.fd)]
      modifies this`log, this`pending, this`place, streams, os`open, os`trace
      ensures Inv() && pending == [] && log == old(log) + [a]
      ensures os.trace == old(os.trace) + [Closed(s.fd)]
      ensures OthersSame(old(streams[..]), streams[..], i)
    {
      hide Holds, Fds, Legal, Trace, After, OpenAfter, Disciplined, Enabled, Effects, Next;
      ghost var id := streams[i].id;
      StreamIsOpen(t, id);
      RunsKeepTable(link, log);
      os.Close(streams[i].fd);
      Observe([Closed(streams[i].fd)], old(os.trace));
      FreeSlot(i, t[id := s], place);
      assert t[id := s] - {id} == t - {id};
      LetGo(link, old(os.open), base, Listening(), t, id);
      Commit(a, place - {id});
    }

    // ---------------------------------------------------------------------
    // What the targets send
    // ---------------------------------------------------------------------

    /** Forwards what a target sent, or its end; fails only if the peer cannot be told. */
    method TargetReadable(i: nat) returns (ok: bool)
      requires Inv() && pending == []
      requires i < MAX_STREAMS && streams[i].active && !streams[i].targetFin
      modifies this`log, this`pending, this`place, streams, os`open, os`trace
      ensures Inv() && OthersSame(old(streams[..]), streams[..], i)
      ensures ok ==> pending == [] && log != [] && Init(log) == old(log) && (Final(log).TargetData? || Final(log).TargetFin?)
      ensures ok ==> Final(log).id == old(streams[i].id)
      ensures !ok ==> log == old(log) && StreamHalted(link, Table(), pending)
    {
      hide Holds, Fds, Legal, Trace, After, OpenAfter, Disciplined, SocksDataLayout;
      var id, fd := streams[i].id, streams[i].fd;
      ActiveSlot(streams[..], Table(), place, i);
      StreamIsOpen(Table(), id);
      RunsKeepTable(link, log);
      var bytes := os.Recv(fd, READ_CHUNK);
      Observe([if bytes == [] then ReadEnd(fd) else Read(fd, bytes)], old(os.trace));
      if bytes == [] {
        var told := SendClose(id, REASON_REMOTE_CLOSED, FLAG_FIN, {});
        if !told {
          assert NotPassedOn(link, Table(), id, pending[0], pending[1]);
          return false;
        }
        MarkTargetFin(id);
        return true;
      }
      ok := SendData(id, bytes);
      if ok {
        Commit(TargetData(id, bytes), place);
      } else {
        assert NotPassedOn(link, Table(), id, pending[0], pending[1]);
      }
    }

    /** A chunk as large as the loop ever reads always fits a message. */
    method SendData(id: u32, bytes: seq<byte>) returns (ok: bool)
      requires Inv() && id != 0 && 0 < |bytes| <= READ_CHUNK
      modifies this`pending, os`trace
      ensures Inv()
      ensures var m := DataMsg(link, id, bytes);
        pending == old(pending) + [if ok then Sent(link.fd, m) else Unsent(link.fd, m)]
    {
      hide Holds, Fds, Legal, Trace, After, OpenAfter, Disciplined;
      var payload := new byte[PAYLOAD_MAX_SOCKS];
      var n := EncodeSocksData(payload, id, bytes);
      assert n.Some?;
      assert payload[..n.value] == SocksDataLayout(SocksData(id, bytes));
      ok := os.SendMsg(link.fd, Msg(MSG_SOCKS_STREAM_DATA, link.session, payload[..n.value]));
      ghost var m := DataMsg(link, id, bytes);
      Observe([if ok then Sent(link.fd, m) else Unsent(link.fd, m)], old(os.trace));
    }

    /**
     * Serves every ready target once and does nothing else. Serving one slot never
     * changes another, so none is served after its end.
     */
    method ServeTargets(ready: set<int>) returns (ok: bool)
      requires Inv() && pending == []
      requires ready <= Unfinished(streams[..])
      modifies this`log, this`pending, this`place, streams, os`open, os`trace
      ensures Inv()
      ensures ok ==> pending == []
      ensures !ok ==> StreamHalted(link, Table(), pending)
      ensures TargetsOnly(old(log), log)
      ensures ok ==> IdsOf(log) == IdsOf(old(log)) + ReadyIds(old(streams[..]), ready)
      ensures ok ==> |log| == |old(log)| + |ReadyIds(old(streams[..]), ready)|
    {
      ghost var slots := streams[..];
      AllUnfinished(link, slots, log, place, ready);
      hide Holds, Fds, Legal, Trace, After, OpenAfter, Disciplined, StreamHalted, ServedOnce, TargetsOnly, Unfinished, IdsOf;
      ServedNone(slots, ready, log);
      hide ReadyIds, ReadyId, Inv, ServedSoFar;
      var i := 0;
      while i < MAX_STREAMS
        invariant 0 <= i <= MAX_STREAMS
        invariant Inv() && pending == []
        invariant ServedOnce(slots, streams[..], i, ready)
        invariant TargetsOnly(old(log), log)
        invariant ServedSoFar(slots, i, ready, old(log), log)
      {
        ghost var before := log;
        ok := ServeOne(i, ready, slots);
        TargetsOnlyOn(old(log), before, log);
        if !ok {
          return;
        }
        ServedMore(slots, i, ready, old(log), before, log);
        i := i + 1;
      }
      ServedAll(slots, ready, old(log), log);
      return true;
    }

    method ServeOne(i: nat, ready: set<int>, ghost slots: seq<Slot>) returns (ok: bool)
      requires Inv() && pending == [] && i < MAX_STREAMS
      requires ServedOnce(slots, streams[..], i, ready)
      modifies this`log, this`pending, this`place, streams, os`open, os`trace
      ensures Inv() && TargetsOnly(old(log), log)
      ensures ok ==> pending == [] && ServedOnce(slots, streams[..], i + 1, ready)
      ensures ok ==> IdsOf(log) == IdsOf(old(log)) + ReadyId(slots[i], ready)
      ensures ok ==> |log| == |old(log)| + |ReadyId(slots[i], ready)|
      ensures !ok ==> StreamHalted(link, Table(), pending)
    {
      hide Holds, Fds, Legal, Trace, After, OpenAfter, Disciplined, StreamHalted;
      assert streams[..][i] == slots[i] && IdsOf(log) + [] == IdsOf(log);
      if !streams[i].active || streams[i].fd !in ready {
        return true;
      }
      ok := TargetReadable(i);
    }

    // ---------------------------------------------------------------------
    // Pings, answers, test frames, probes
    // ---------------------------------------------------------------------

    /** The counters are those of the trace. */
    ghost predicate Counted()
      reads this
    {
      && pings == Count(Pong, Trace(link, log))
      && framesSent == Count(FrameSent, Trace(link, log))
      && (gotFrame <==> Count(FrameGot, Trace(link, log)) > 0)
    }

    /** What holds whenever the loop is about to wait. */
    ghost predicate AtHead()
      reads this, os, streams
    {
      && Inv() && pending == [] && Counted()
      && framesSent == Due(goal, pings)
      && !Met(goal, pings, gotFrame)
    }

    /** What holds when it is left. */
    ghost predicate AtEnd(rc: int)
      reads this, os, streams
    {
      && Inv() && Counted()
      && (pending == [] || HaltedBy(link, Table(), pending))
      && Concluded(goal, pings, framesSent, gotFrame, pending, rc)
    }

    ghost method CommitAside(es: seq<Event>)
      requires Inv() && pending == es && AsideOk(link, Table(), es)
      modifies this`log, this`pending, this`place
      ensures Inv() && pending == [] && log == old(log) + [Aside(es)]
      ensures Count(Pong, Trace(link, log)) == old(Count(Pong, Trace(link, log))) + Count(Pong, es)
      ensures Count(FrameSent, Trace(link, log)) == old(Count(FrameSent, Trace(link, log))) + Count(FrameSent, es)
      ensures Count(FrameGot, Trace(link, log)) == old(Count(FrameGot, Trace(link, log))) + Count(FrameGot, es)
    {
      hide Holds, Fds, Legal, Trace, After, OpenAfter, Disciplined, AsideOk, Count;
      AsideCounts(link, log, es, Pong);
      AsideCounts(link, log, es, FrameSent);
      AsideCounts(link, log, es, FrameGot);
      Commit(Aside(es), place);
    }

    /** Sends the peer something that belongs to no stream. */
    method Tell(m: Msg) returns (ok: bool)
      requires Inv() && pending == []
      requires m == PingMsg(link) || (m.session == link.session && IsTestFrame(m, link.network))
      modifies this`log, this`pending, this`place, os`trace
      ensures Inv() && pending == if ok then [] else [Unsent(link.fd, m)]
      ensures log == if ok then old(log) + [Aside([Sent(link.fd, m)])] else old(log)
      ensures Count(Pong, Trace(link, log)) == old(Count(Pong, Trace(link, log)))
      ensures Count(FrameSent, Trace(link, log))
        == old(Count(FrameSent, Trace(link, log))) + if ok && m.typ == MSG_TAP_FRAME then 1 else 0
      ensures Count(FrameGot, Trace(link, log)) == old(Count(FrameGot, Trace(link, log)))
    {
      hide Holds, Fds, Legal, Trace, After, OpenAfter, Disciplined, Count;
      ok := os.SendMsg(link.fd, m);
      Observe([if ok then Sent(link.fd, m) else Unsent(link.fd, m)], old(os.trace));
      if ok {
        CountOne(Pong, Sent(link.fd, m));
        CountOne(FrameSent, Sent(link.fd, m));
        CountOne(FrameGot, Sent(link.fd, m));
        CommitAside([Sent(link.fd, m)]);
      }
    }

    method SendPing() returns (ok: bool)
      requires Inv() && pending == [] && Counted()
      modifies this`log, this`pending, this`place, os`trace
      ensures Inv() && Counted()
      ensures pending == if ok then [] else [Unsent(link.fd, PingMsg(link))]
      ensures log == if ok then old(log) + [Aside([Sent(link.fd, PingMsg(link))])] else old(log)
    {
      hide Inv, Legal, Trace, After, Count;
      ok := Tell(PingMsg(link));
    }

    method TestPayload() returns (b: seq<byte>)
      ensures ParseTapFrame(b) == Some(TapFrame(link.network, TEST_FRAME))
    {
      var payload := new byte[64];
      var n := EncodeTapFrame(payload, link.network, TEST_FRAME);
      assert n.Some?;
      b := payload[..n.value];
      assert b == TapFrameLayout(TapFrame(link.network, TEST_FRAME));
      TapFrameExact(b, TapFrame(link.network, TEST_FRAME));
    }

    method SendTestFrame() returns (ok: bool)
      requires Inv() && pending == [] && Counted()
      modifies this`log, this`pending, this`place, this`framesSent, os`trace
      ensures Inv() && Counted()
      ensures framesSent == old(framesSent) + if ok then 1 else 0
      ensures if ok then pending == [] else TestUnsent(link, pending)
      ensures if ok then log != [] && Init(log) == old(log) && SendsTestFrame(Final(log)) else log == old(log)
    {
      hide Holds, Fds, Legal, Trace, After, OpenAfter, Disciplined, Count, ParseTapFrame;
      var payload := TestPayload();
      ok := Tell(Msg(MSG_TAP_FRAME, link.session, payload));
      if ok {
        framesSent := framesSent + 1;
      }
    }

    ghost method CommitReceived(raw: Msg)
      requires Inv() && pending == [Received(link.fd, raw)] && (raw.typ == MSG_PONG || IsTestFrame(raw, link.network))
      modifies this`log, this`pending, this`place
      ensures Inv() && pending == [] && log == old(log) + [Aside([Received(link.fd, raw)])]
      ensures Count(Pong, Trace(link, log)) == old(Count(Pong, Trace(link, log))) + if raw.typ == MSG_PONG then 1 else 0
      ensures Count(FrameSent, Trace(link, log)) == old(Count(FrameSent, Trace(link, log)))
      ensures Count(FrameGot, Trace(link, log))
        == old(Count(FrameGot, Trace(link, log))) + if raw.typ == MSG_TAP_FRAME then 1 else 0
    {
      hide Holds, Fds, Legal, Trace, After, OpenAfter, Disciplined, Count;
      CountOne(Pong, Received(link.fd, raw));
      CountOne(FrameSent, Received(link.fd, raw));
      CountOne(FrameGot, Received(link.fd, raw));
      CommitAside([Received(link.fd, raw)]);
    }

    method PongReceived(raw: Msg) returns (r: Outcome)
      requires Inv() && Counted() && framesSent == Due(goal, pings)
      requires raw.typ == MSG_PONG && pending == [Received(link.fd, raw)]
      modifies this, os`trace
      ensures Took(old(log), log, raw)
      ensures r.Continue? ==> AtHead()
      ensures r.Stop? ==> AtEnd(r.rc)
    {
      hide Holds, Fds, Legal, Trace, After, OpenAfter, Disciplined, Count, Took;
      CommitReceived(raw);
      TookAside(link, old(log), raw);
      pings := pings + 1;
      if goal.frameCount > 0
         && ((goal.eachPong && framesSent < goal.frameCount) || (!goal.eachPong && framesSent == 0)) {
        var toSend := if goal.eachPong then 1 else goal.frameCount;
        var j := 0;
        ghost var sent := framesSent;
        while j < toSend
          invariant 0 <= j <= toSend && framesSent == sent + j
          invariant Inv() && pending == [] && Counted()
          invariant pings == old(pings) + 1 && Took(old(log), log, raw)
        {
          ghost var before := log;
          var ok := SendTestFrame();
          if !ok {
            return Stop(1);
          }
          TookStays(old(log), before, log, raw);
          j := j + 1;
        }
      }
      r := if goal.pingCount > 0 && pings >= goal.pingCount && (!goal.expectFrame || gotFrame) then Stop(0) else Continue;
    }

    method FrameReceived(raw: Msg) returns (r: Outcome)
      requires Inv() && Counted() && framesSent == Due(goal, pings) && !Met(goal, pings, gotFrame)
      requires raw.typ == MSG_TAP_FRAME && pending == [Received(link.fd, raw)]
      modifies this
      ensures Took(old(log), log, raw) || (r.Stop? && log == old(log))
      ensures r.Continue? ==> AtHead()
      ensures r.Stop? ==> AtEnd(r.rc)
    {
      hide Holds, Fds, Legal, Trace, After, OpenAfter, Disciplined, Count;
      var frame := DecodeTapFrame(raw.payload);
      if frame.None? || frame.value.networkId != link.network || frame.value.frame != TEST_FRAME {
        return Stop(1);
      }
      CommitReceived(raw);
      TookAside(link, old(log), raw);
      gotFrame := true;
      r := if goal.pingCount > 0 && pings >= goal.pingCount then Stop(0) else Continue;
    }

    method Probe(now: nat) returns (r: Outcome)
      requires AtHead() && listenFd != NO_FD
      modifies this`log, this`pending, this`place, os`open, os`trace
      ensures r.Continue? ==> AtHead() && log != [] && Init(log) == old(log) && IsProbe(Final(log))
      ensures r.Stop? ==> AtEnd(r.rc) && log == old(log)
    {
      hide Holds, Fds, Legal, Trace, After, OpenAfter, Disciplined, Count;
      ghost var before := os.trace;
      var ok;
      ghost var at, text;
      ok, at, text := AcceptProbe(os, listenFd, me, link.network, now);
      if !ok {
        Observe([NotOpened], before);
        return Stop(1);
      }
      ghost var es := [Opened(at), Heard(at, text), Closed(at)];
      ProbeIsAside(link, Table(), at, text);
      Observe(es, before);
      CommitAside(es);
      return Continue;
    }

    // ---------------------------------------------------------------------
    // One round
    // ---------------------------------------------------------------------

    method CloseReceived(raw: Msg) returns (ok: bool)
      requires Inv() && raw.typ == MSG_SOCKS_STREAM_CLOSE && pending == [Received(link.fd, raw)]
      modifies this`log, this`pending, this`place, streams, os`open, os`trace
      ensures Inv() && Extends(old(log), log)
      ensures ok <==> ParseSocksClose(raw.payload).Some?
      ensures ok ==> pending == [] && Took(old(log), log, raw)
      ensures !ok ==> pending == old(pending) && log == old(log)
    {
      hide Holds, Fds, Legal, Trace, After, OpenAfter, Disciplined;
      ExtendsSelf(log);
      var m := DecodeSocksClose(raw.payload);
      if m.None? {
        return false;
      }
      if HasFin(m.value.flags) {
        MarkClientFin(m.value.streamId, raw);
      } else {
        StreamClose(m.value.streamId, raw);
      }
      ExtendsStep(old(log), old(log), log);
      TookOne(old(log), log, raw);
      return true;
    }

    /** The three stream messages; anything malformed ends the session. */
    method StreamMessage(raw: Msg) returns (ok: bool)
      requires Inv() && pending == [Received(link.fd, raw)]
      requires MSG_SOCKS_STREAM_OPEN <= raw.typ <= MSG_SOCKS_STREAM_CLOSE
      modifies this`log, this`pending, this`place, streams, os`open, os`trace
      ensures Inv() && Extends(old(log), log)
      ensures ok ==> pending == [] && Took(old(log), log, raw)
      ensures !ok ==> StreamHalted(link, Table(), pending) && log == old(log)
    {
      hide Holds, Fds, Legal, Trace, After, OpenAfter, Disciplined, Took;
      ExtendsSelf(log);
      if raw.typ == MSG_SOCKS_STREAM_OPEN {
        ok := StreamOpen(raw);
      } else if raw.typ == MSG_SOCKS_STREAM_DATA {
        ok := StreamData(raw);
      } else {
        ok := CloseReceived(raw);
        return;
      }
      if ok {
        ExtendsStep(old(log), old(log), log);
        TookOne(old(log), log, raw);
      }
    }

    /** Stream actions leave the counters right. */
    lemma CountedStays(before: Log)
      requires Legal(link, log) && Extends(before, log)
      requires pings == Count(Pong, Trace(link, before)) && framesSent == Count(FrameSent, Trace(link, before))
      requires gotFrame <==> Count(FrameGot, Trace(link, before)) > 0
      ensures Counted()
    {
      ExtendsCounts(link, before, log, Pong);
      ExtendsCounts(link, before, log, FrameSent);
      ExtendsCounts(link, before, log, FrameGot);
    }

    method Dispatch(raw: Msg) returns (r: Outcome)
      requires Inv() && Counted() && framesSent == Due(goal, pings) && !Met(goal, pings, gotFrame)
      requires pending == [Received(link.fd, raw)]
      modifies this, streams, os`open, os`trace
      ensures Took(old(log), log, raw) || (r.Stop? && log == old(log))
      ensures r.Continue? ==> AtHead()
      ensures r.Stop? ==> AtEnd(r.rc)
    {
      hide Holds, Fds, Legal, Trace, After, OpenAfter, Disciplined, Count, Extends, Took;
      if raw.typ == MSG_PONG {
        r := PongReceived(raw);
      } else if raw.typ == MSG_TAP_FRAME {
        r := FrameReceived(raw);
      } else if MSG_SOCKS_STREAM_OPEN <= raw.typ <= MSG_SOCKS_STREAM_CLOSE {
        var ok := StreamMessage(raw);
        CountedStays(old(log));
        r := if ok then Continue else Stop(1);
      } else {
        r := Stop(1);
      }
    }

    method ControlReadable() returns (r: Outcome)
      requires AtHead()
      modifies this, streams, os`open, os`trace
      ensures (exists m :: Took(old(log), log, m)) || (r.Stop? && log == old(log))
      ensures r.Continue? ==> AtHead()
      ensures r.Stop? ==> AtEnd(r.rc)
    {
      hide Holds, Fds, Legal, Trace, After, OpenAfter, Disciplined, Count, Took;
      var raw := os.RecvMsg(link.fd, PAYLOAD_MAX_CONTROL);
      Observe([if raw.Some? then Received(link.fd, raw.value) else Unheard(link.fd)], old(os.trace));
      if raw.None? {
        return Stop(if pings > 0 && goal.pingCount <= 0 && !goal.expectFrame then 0 else 1);
      }
      r := Dispatch(raw.value);
    }

    /** What the loop waits for: the peer, the listener, and every target that has not finished. */
    method WatchSet() returns (watch: set<int>)
      requires Inv()
      ensures watch == {link.fd} + Listening() + Unfinished(streams[..])
      ensures forall fd :: fd in watch <==> fd == link.fd || fd in Listening() || Awaited(Table(), fd)
    {
      hide Holds, Fds, Legal, Trace, After, OpenAfter, Disciplined, Awaited;
      forall fd
        ensures fd in Unfinished(streams[..]) <==> Awaited(Table(), fd)
      {
        WatchedExactly(streams[..], Table(), place, fd);
      }
      watch := {link.fd} + Listening();
      var i := 0;
      assert streams[..0] == [];
      while i < MAX_STREAMS
        invariant 0 <= i <= MAX_STREAMS
        invariant watch == {link.fd} + Listening() + Unfinished(streams[..i])
      {
        UnfinishedSnoc(streams[..i], streams[i]);
        assert streams[..i + 1] == streams[..i] + [streams[i]];
        if streams[i].active && !streams[i].targetFin {
          watch := watch + {streams[i].fd};
        }
        i := i + 1;
      }
      assert streams[..] == streams[..MAX_STREAMS];
    }

    /** Waits and serves: the peer alone if it is ready, else the listener alone, else every ready target. */
    method Round() returns (r: Outcome, ghost selected: Selected)
      requires AtHead()
      modifies this, streams, os
      ensures r.Continue? ==> AtHead() && os.ticks < old(os.ticks)
      ensures r.Stop? ==> AtEnd(r.rc)
      ensures r.Continue? ==> !selected.Broken?
      ensures selected.Interrupted? ==> r.Continue? && log == old(log)
      ensures r.Continue? && selected.TimedOut? ==> log == old(log) + [Aside([Sent(link.fd, PingMsg(link))])]
      ensures r.Stop? && !selected.Ready? ==> log == old(log)
      ensures selected.Ready? ==>
        if link.fd in selected.fds then (exists m :: Took(old(log), log, m)) || (r.Stop? && log == old(log))
        else if Listening() * selected.fds != {} then
          if r.Continue? then log != [] && Init(log) == old(log) && IsProbe(Final(log)) else log == old(log)
        else
          TargetsOnly(old(log), log)
          && (r.Continue? ==>
                var ids := ReadyIds(old(streams[..]), selected.fds);
                IdsOf(log) == IdsOf(old(log)) + ids && |log| == |old(log)| + |ids|)
    {
      hide Holds, Fds, Legal, Trace, After, OpenAfter, Disciplined, Count, Unfinished, Took, TargetsOnly, IdsOf;
      var watch := WatchSet();
      UnfinishedAreOpen(streams[..], Table(), place);
      var answer := os.Select(watch);
      selected := answer;
      match answer {
        case Broken =>
          Observe([WaitFailed], old(os.trace));
          r := Stop(1);
        case Interrupted =>
          r := Continue;
        case TimedOut =>
          var ok := SendPing();
          r := if ok then Continue else Stop(1);
        case Ready(fds) =>
          if link.fd in fds {
            r := ControlReadable();
          } else if listenFd != NO_FD && listenFd in fds {
            var now: nat := *;
            assert listenFd in Listening() * fds;
            r := Probe(now);
          } else {
            var ok := ServeTargets(fds);
            TargetsExtend(old(log), log);
            CountedStays(old(log));
            r := if ok then Continue else Stop(1);
          }
      }
    }

    // ---------------------------------------------------------------------
    // Leaving
    // ---------------------------------------------------------------------

    /** While the slots are being given up: t are the streams still there. */
    ghost predicate Leaving(t: Streams.Table, p: map<u32, nat>)
      reads this, os, streams
    {
      os.Valid() && streams.Length == MAX_STREAMS && Holds(streams[..], t, p) && TableOk(link, t) && Owned(t, {})
    }

    method CloseAll(ghost t0: Streams.Table, ghost p0: map<u32, nat>) returns (ghost closings: seq<Event>)
      requires Leaving(t0, p0) && listenFd == NO_FD && streams.Length == MAX_STREAMS
      modifies streams, os`open, os`trace
      ensures os.Valid() && os.open == base
      ensures OnlyCloses(closings) && os.trace == old(os.trace) + closings
    {
      hide Leaving, OnlyCloses, Os.Valid;
      ghost var t, p := t0, p0;
      closings := [];
      NoneClosed(os.trace);
      var i := 0;
      while i < MAX_STREAMS
        invariant 0 <= i <= MAX_STREAMS
        invariant Leaving(t, p)
        invariant OnlyCloses(closings) && os.trace == old(os.trace) + closings
        invariant NoneActive(streams[..i])
      {
        assert streams[..i + 1] == streams[..i] + [streams[i]];
        if streams[i].active {
          OneMoreClosed(old(os.trace), closings, streams[i].fd);
          closings := closings + [Closed(streams[i].fd)];
          t, p := CloseSlot(i, t, p);
        }
        i := i + 1;
      }
      assert streams[..] == streams[..MAX_STREAMS];
      LeftAll(t, p);
    }

    lemma LeftAll(t: Streams.Table, p: map<u32, nat>)
      requires Leaving(t, p) && listenFd == NO_FD && NoneActive(streams[..])
      ensures os.Valid() && os.open == base
    {
      hide OpenAfter, Disciplined, Holds;
      NobodyLeft(streams[..], t, p);
    }

    method CloseSlot(i: nat, ghost t: Streams.Table, ghost p: map<u32, nat>)
      returns (ghost t': Streams.Table, ghost p': map<u32, nat>)
      requires i < streams.Length && streams[i].active && Leaving(t, p)
      modifies streams, os`open, os`trace
      ensures Leaving(t', p')
      ensures os.trace == old(os.trace) + [Closed(old(streams[i].fd))]
      ensures !streams[i].active && streams[..i] == old(streams[..i])
    {
      hide Holds, Fds, OpenAfter, Disciplined, TableOk, OthersSame;
      ActiveSlot(streams[..], t, p, i);
      ghost var id := streams[i].id;
      StreamIsOpen(t, id);
      os.Close(streams[i].fd);
      ghost var before := streams[..];
      FreeSlot(i, t, p);
      SameBelow(before, streams[..], i);
      LetGo(link, old(os.open), base, Listening(), t, id);
      RemovingKeeps(link, t, id);
      t', p' := t - {id}, p - {id};
    }

    method Finish() returns (ghost closings: seq<Event>)
      requires Inv()
      modifies this`listenFd, streams, os`open, os`trace
      ensures os.Valid() && os.open == base
      ensures OnlyCloses(closings) && os.trace == old(os.trace) + closings
    {
      hide Holds, Fds, Legal, Trace, After, OpenAfter, Disciplined, TableOk;
      RunsKeepTable(link, log);
      ghost var t := Table();
      ghost var first: seq<Event> := [];
      if listenFd != NO_FD {
        os.Close(listenFd);
        first := [Closed(listenFd)];
        listenFd := NO_FD;
        assert Owned(t, {});
      }
      ghost var rest := CloseAll(t, place);
      closings := first + rest;
    }

    /** Round after round, until the session ends. */
    method Serve() returns (rc: int)
      requires Inv() && log == [] && pending == [] && pings == 0 && framesSent == 0 && !gotFrame
      modifies this, streams, os
      ensures AtEnd(rc)
    {
      assert Counted() && AtHead();
      hide Holds, Fds, Legal, Trace, After, OpenAfter, Disciplined, Count;
      var r := Continue;
      while r.Continue?
        invariant r.Continue? ==> AtHead()
        invariant r.Stop? ==> AtEnd(r.rc)
        decreases r.Continue?, os.ticks
      {
        ghost var selected;
        r, selected := Round();
      }
      rc := r.rc;
    }
  }

  lemma {:induction false} ProbeIsAside(link: Link, t: Streams.Table, at: int, text: string)
    requires at !in Fds(t)
    ensures var es := [Opened(at), Heard(at, text), Closed(at)];
      AsideOk(link, t, es) && Count(Pong, es) == 0 && Count(FrameSent, es) == 0 && Count(FrameGot, es) == 0
  {
    var es := [Opened(at), Heard(at, text), Closed(at)];
    FreshForAll(t, at);
    CountNone(Pong, es);
    CountNone(FrameSent, es);
    CountNone(FrameGot, es);
  }

  /** One message has been taken, and nothing else done but the sending of test frames for an answer. */
  ghost predicate Took(before: Log, after: Log, raw: Msg) {
    && |before| < |after| && after[..|before|] == before && Heeds(after[|before|], raw)
    && forall k | |before| < k < |after| :: raw.typ == MSG_PONG && SendsTestFrame(after[k])
  }

  predicate SendsTestFrame(a: Action) {
    a.Aside? && |a.events| == 1 && a.events[0].Sent? && a.events[0].msg.typ == MSG_TAP_FRAME
  }

  predicate Heeds(a: Action, raw: Msg) {
    match a
    case Aside(es) => |es| == 1 && es[0].Received? && es[0].msg == raw
    case TargetData(_, _) => false
    case TargetFin(_) => false
    case _ => a.raw == raw
  }

  predicate IsProbe(a: Action) {
    a.Aside? && |a.events| == 3 && a.events[0].Opened? && a.events[1].Heard? && a.events[2].Closed?
  }

  lemma {:induction false} TookOne(before: Log, after: Log, raw: Msg)
    requires after != [] && Init(after) == before && Heeds(Final(after), raw)
    ensures Took(before, after, raw)
  {
  }

  lemma {:induction false} TookAside(link: Link, before: Log, raw: Msg)
    ensures Took(before, before + [Aside([Received(link.fd, raw)])], raw)
  {
    TookOne(before, before + [Aside([Received(link.fd, raw)])], raw);
  }

  lemma {:induction false} TookStays(first: Log, before: Log, after: Log, raw: Msg)
    requires Took(first, before, raw) && after != [] && Init(after) == before
    requires raw.typ == MSG_PONG && SendsTestFrame(Final(after))
    ensures Took(first, after, raw)
  {
    assert forall k | 0 <= k < |before| :: after[k] == before[k];
  }

  ghost predicate NoneActive(slots: seq<Slot>) {
    forall i | 0 <= i < |slots| :: !slots[i].active
  }

  lemma {:induction false} SameBelow(before: seq<Slot>, after: seq<Slot>, i: nat)
    requires i < |before| && OthersSame(before, after, i)
    ensures after[..i] == before[..i]
  {
  }

  lemma {:induction false} NobodyLeft(slots: seq<Slot>, t: Streams.Table, place: map<u32, nat>)
    requires Holds(slots, t, place) && NoneActive(slots)
    ensures Fds(t) == {}
  {
    if id :| id in t {
      SlotOf(slots, t, place, id);
      assert false;
    }
  }

  lemma {:induction false} UnfinishedSnoc(slots: seq<Slot>, s: Slot)
    ensures Unfinished(slots + [s]) == Unfinished(slots) + if s.active && !s.targetFin then {s.fd} else {}
  {
    var all := slots + [s];
    assert forall i | 0 <= i < |slots| :: all[i] == slots[i];
    assert all[|slots|] == s;
  }

  datatype Outcome = Continue | Stop(rc: int)

  /** From position i on the slots are as they were, and a ready one of them belongs to an unfinished target. */
  ghost predicate ServedOnce(slots: seq<Slot>, now: seq<Slot>, i: nat, ready: set<int>) {
    && |slots| == |now|
    && (forall j | i <= j < |slots| :: now[j] == slots[j])
    && (forall j | i <= j < |slots| :: slots[j].active && slots[j].fd in ready ==> !slots[j].targetFin)
  }

  /** The streams of the actions of a run that come from targets, in order. */
  function IdsOf(log: Log): seq<u32> {
    if log == [] then []
    else
      var last := Final(log);
      IdsOf(Init(log)) + if last.TargetData? || last.TargetFin? then [last.id] else []
  }

  function ReadyId(s: Slot, ready: set<int>): seq<u32> {
    if s.active && s.fd in ready then [s.id] else []
  }

  /** The streams with something to read, in the order of their slots. */
  function ReadyIds(slots: seq<Slot>, ready: set<int>): seq<u32> {
    if slots == [] then [] else ReadyIds(slots[..|slots| - 1], ready) + ReadyId(slots[|slots| - 1], ready)
  }

  /** A run continued by actions of targets alone. */
  ghost predicate TargetsOnly(before: Log, after: Log) {
    && |before| <= |after| && after[..|before|] == before
    && forall k | |before| <= k < |after| :: after[k].TargetData? || after[k].TargetFin?
  }

  lemma {:induction false} TargetsExtend(before: Log, after: Log)
    requires TargetsOnly(before, after)
    ensures Extends(before, after)
  {
  }

  lemma {:induction false} TargetsOnlyOn(first: Log, before: Log, after: Log)
    requires TargetsOnly(first, before) && TargetsOnly(before, after)
    ensures TargetsOnly(first, after)
  {
    assert after[..|first|] == after[..|before|][..|first|];
    assert forall i | |first| <= i < |before| :: after[i] == after[..|before|][i];
  }

  /** The ready streams of the slots before i have been served, one action each. */
  ghost predicate ServedSoFar(slots: seq<Slot>, i: nat, ready: set<int>, before: Log, after: Log) {
    && i <= |slots|
    && IdsOf(after) == IdsOf(before) + ReadyIds(slots[..i], ready)
    && |after| == |before| + |ReadyIds(slots[..i], ready)|
  }

  lemma {:induction false} ServedNone(slots: seq<Slot>, ready: set<int>, log: Log)
    ensures ServedSoFar(slots, 0, ready, log, log) && TargetsOnly(log, log)
  {
  }

  lemma {:induction false} ServedMore(slots: seq<Slot>, i: nat, ready: set<int>, first: Log, before: Log, after: Log)
    requires ServedSoFar(slots, i, ready, first, before) && i < |slots|
    requires IdsOf(after) == IdsOf(before) + ReadyId(slots[i], ready)
    requires |after| == |before| + |ReadyId(slots[i], ready)|
    ensures ServedSoFar(slots, i + 1, ready, first, after)
  {
    hide IdsOf;
    assert slots[..i + 1][..i] == slots[..i];
  }

  lemma {:induction false} ServedAll(slots: seq<Slot>, ready: set<int>, before: Log, after: Log)
    requires ServedSoFar(slots, |slots|, ready, before, after)
    ensures IdsOf(after) == IdsOf(before) + ReadyIds(slots, ready)
    ensures |after| == |before| + |ReadyIds(slots, ready)|
  {
    assert slots[..|slots|] == slots;
  }

  lemma {:induction false} AllUnfinished(link: Link, slots: seq<Slot>, log: Log, place: map<u32, nat>, ready: set<int>)
    requires Legal(link, log) && Holds(slots, After(log), place) && ready <= Unfinished(slots)
    ensures ServedOnce(slots, slots, 0, ready)
  {
    RunsKeepTable(link, log);
    forall j: nat | j < |slots| && slots[j].active && slots[j].fd in ready
      ensures !slots[j].targetFin
    {
      WatchedIsUnfinished(link, slots, After(log), place, j);
    }
  }

  lemma {:induction false} ActiveSlot(slots: seq<Slot>, t: Streams.Table, place: map<u32, nat>, i: nat)
    requires Holds(slots, t, place) && i < |slots| && slots[i].active
    ensures slots[i].id in t && slots[i].id in place && place[slots[i].id] == i && StreamIn(slots[i]) == t[slots[i].id]
  {
  }

  ghost predicate OthersSame(before: seq<Slot>, after: seq<Slot>, i: int) {
    |before| == |after| && forall j | 0 <= j < |before| && j != i :: after[j] == before[j]
  }

  /** A message that ends the session: malformed, misplaced, or opening a stream that is open. */
  ghost predicate Unacceptable(link: Link, t: Streams.Table, raw: Msg) {
    if raw.typ == MSG_TAP_FRAME then !IsTestFrame(raw, link.network)
    else if raw.typ == MSG_SOCKS_STREAM_OPEN then
      ParseSocksOpen(raw.payload).None? || ParseSocksOpen(raw.payload).value.streamId in t
    else if raw.typ == MSG_SOCKS_STREAM_DATA then ParseSocksData(raw.payload).None?
    else if raw.typ == MSG_SOCKS_STREAM_CLOSE then ParseSocksClose(raw.payload).None?
    else raw.typ != MSG_PONG
  }

  /** What ends the loop from outside the streams: a failed wait, accept, ping or test frame, or no message from the peer. */
  ghost predicate HaltedBy(link: Link, t: Streams.Table, es: seq<Event>) {
    || es == [WaitFailed]
    || es == [NotOpened]
    || es == [Unheard(link.fd)]
    || es == [Unsent(link.fd, PingMsg(link))]
    || TestUnsent(link, es)
    || StreamHalted(link, t, es)
  }

  ghost predicate TestUnsent(link: Link, es: seq<Event>) {
    |es| == 1 && es[0].Unsent? && es[0].fd == link.fd && es[0].msg.session == link.session && IsTestFrame(es[0].msg, link.network)
  }

  /**
   * What ends it in the middle of an action: an unacceptable message, a write
   * cut short, or something from a target that could not be passed on.
   */
  ghost predicate StreamHalted(link: Link, t: Streams.Table, es: seq<Event>) {
    || (|es| == 1 && es[0].Received? && es[0].fd == link.fd && Unacceptable(link, t, es[0].msg))
    || (|es| == 2 && es[0].Received? && es[0].fd == link.fd && es[1].Wrote? && CutShort(t, es[0].msg, es[1].fd, es[1].bytes))
    || (|es| == 2 && exists id :: NotPassedOn(link, t, id, es[0], es[1]))
  }

  ghost predicate NotPassedOn(link: Link, t: Streams.Table, id: u32, read: Event, failed: Event) {
    && id in t && !t[id].targetFin
    && ((read == ReadEnd(t[id].fd) && failed == Unsent(link.fd, CloseMsg(link, id, REASON_REMOTE_CLOSED, FLAG_FIN)))
        || (read.Read? && read.fd == t[id].fd && 0 < |read.bytes| <= READ_CHUNK
            && failed == Unsent(link.fd, DataMsg(link, id, read.bytes))))
  }

  /**
   * The result, and the counters behind it: zero exactly if the goal was met, or
   * the peer was lost after an answer while none was set; the test frames are
   * those due, unless one of them could not be sent.
   */
  ghost predicate Concluded(goal: Goal, pongs: nat, frames: nat, gotFrame: bool, pending: seq<Event>, rc: int) {
    && rc == (if pending == [] || (NothingHeard(pending) && pongs > 0 && goal.pingCount <= 0 && !goal.expectFrame) then 0 else 1)
    && (pending == [] ==> Met(goal, pongs, gotFrame))
    && (if FrameUnsent(pending) then frames < Due(goal, pongs) else frames == Due(goal, pongs))
    && (pending != [] && !FrameUnsent(pending) ==> !Met(goal, pongs, gotFrame))
  }

  predicate NothingHeard(es: seq<Event>) {
    |es| == 1 && es[0].Unheard?
  }

  predicate FrameUnsent(es: seq<Event>) {
    |es| == 1 && es[0].Unsent? && es[0].msg.typ == MSG_TAP_FRAME
  }

  /** A proper beginning of a payload for a stream that still takes payloads. */
  ghost predicate CutShort(t: Streams.Table, raw: Msg, fd: int, bytes: seq<byte>) {
    && raw.typ == MSG_SOCKS_STREAM_DATA
    && var d := ParseSocksData(raw.payload);
       d.Some? && d.value.streamId in t && !t[d.value.streamId].clientFin && t[d.value.streamId].fd == fd && bytes < d.value.data
  }

  lemma {:induction false} SlotOf(slots: seq<Slot>, t: Streams.Table, place: map<u32, nat>, id: u32)
    requires Holds(slots, t, place) && id in t
    ensures id in place && place[id] < |slots|
    ensures slots[place[id]].active && slots[place[id]].id == id && StreamIn(slots[place[id]]) == t[id]
  {
  }

  lemma {:induction false} StreamIsOpen(t: Streams.Table, id: u32)
    requires id in t
    ensures t[id].fd in Fds(t)
  {
  }

  lemma {:induction false} NothingRemoved(t: Streams.Table, id: u32)
    requires id !in t
    ensures t - {id} == t
  {
  }

  lemma {:induction false} FullEnabled(link: Link, t: Streams.Table, id: u32, raw: Msg, target: int, told: bool)
    requires IsOpen(raw, id) && id !in t && |t| == MAX_STREAMS && target != link.fd
    requires forall j | j in t :: t[j].fd != target
    ensures Enabled(link, t, OpenFull(id, raw, target, told))
    ensures Next(t, OpenFull(id, raw, target, told)) == t
    ensures Effects(link, t, OpenFull(id, raw, target, told))
      == [Received(link.fd, raw), Opened(target), DialedFor(raw, target)] + [Closed(target)]
         + [CloseAttempt(link, id, REASON_RESOURCE_LIMITED, 0, told)]
  {
  }

  /** A closed stream's descriptor has no owner any more. */
  lemma {:induction false} LetGo(link: Link, open: set<int>, base: set<int>, listening: set<int>, t: Streams.Table, id: u32)
    requires TableOk(link, t) && id in t
    requires open == base + listening + Fds(t) + {}
    requires base !! listening !! Fds(t) !! {}
    ensures open - {t[id].fd} == base + listening + Fds(t - {id}) + {}
    ensures base !! listening !! Fds(t - {id}) !! {}
  {
    FdsRemoved(link, t, id);
    StreamIsOpen(t, id);
  }

  /** The descriptor of the operation in progress becomes a stream's. */
  lemma {:induction false} HandOver(
    open: set<int>, base: set<int>, listening: set<int>, fds: set<int>, extra: set<int>, fds': set<int>)
    requires open == base + listening + fds + extra
    requires base !! listening !! fds !! extra
    requires fds' == fds + extra
    ensures open == base + listening + fds' + {}
    ensures base !! listening !! fds' !! {}
  {
  }

  lemma {:induction false} ZeroIsNoStream(link: Link, log: Log)
    requires Legal(link, log)
    ensures 0 !in After(log)
  {
    RunsKeepTable(link, log);
  }

  lemma {:induction false} FreshForAll(t: Table, fd: int)
    requires fd !in Fds(t)
    ensures forall id | id in t :: t[id].fd != fd
  {
    forall id | id in t
      ensures t[id].fd != fd
    {
      assert t[id].fd in Fds(t);
    }
  }

  /** A finished run of the loop and what surrounded it. */
  datatype Run = Run(listener: Option<int>, pinged: bool, log: Log, pending: seq<Event>, closings: seq<Event>)

  /** The listener, if there is to be one, and the first ping. */
  function Opening(link: Link, direct: bool, listener: Option<int>, pinged: bool): seq<Event> {
    if direct && listener.None? then [NotOpened]
    else
      (if direct then [Opened(listener.value)] else [])
      + [if pinged then Sent(link.fd, PingMsg(link)) else Unsent(link.fd, PingMsg(link))]
  }

  ghost predicate RunOk(link: Link, goal: Goal, direct: bool, rc: int, run: Run) {
    && OnlyCloses(run.closings)
    && (direct && run.listener.None? ==> !run.pinged)
    && if !run.pinged then run.log == [] && run.pending == [] && rc == 1
       else
         && Legal(link, run.log)
         && (run.pending == [] || HaltedBy(link, After(run.log), run.pending))
         && var trace := Trace(link, run.log);
            Concluded(goal, Count(Pong, trace), Count(FrameSent, trace), Count(FrameGot, trace) > 0, run.pending, rc)
  }

  function EventsOf(link: Link, direct: bool, run: Run): seq<Event> {
    Opening(link, direct, run.listener, run.pinged) + Trace(link, run.log) + run.pending + run.closings
  }

  /** The whole life of the loop: whatever happens, everything it opened is closed again. */
  method RunControlLoop(os: Os, link: Link, me: Identity, goal: Goal, direct: bool) returns (rc: int, ghost run: Run)
    requires os.Valid() && link.fd in os.open
    modifies os
    ensures os.Valid() && os.open == old(os.open)
    ensures RunOk(link, goal, direct, rc, run)
    ensures os.trace == old(os.trace) + EventsOf(link, direct, run)
  {
    hide Holds, Fds, Legal, Trace, After, OpenAfter, Disciplined, Count;
    var listenFd := NO_FD;
    if direct {
      listenFd := os.Allocate();
      if listenFd == NO_FD {
        run := Run(None, false, [], [], []);
        NoRun(link, goal, direct, run);
        return 1, run;
      }
    }
    ghost var listener := if direct then Some(listenFd) else None;
    var ok := os.SendMsg(link.fd, PingMsg(link));
    assert os.trace == old(os.trace) + Opening(link, direct, listener, ok);
    if !ok {
      run := Run(listener, false, [], [], if direct then [Closed(listenFd)] else []);
      NoRun(link, goal, direct, run);
      if listenFd != NO_FD {
        os.Close(listenFd);
      }
      return 1, run;
    }
    var loop := new Loop(os, link, me, goal, listenFd, old(os.open));
    rc := loop.Serve();
    ghost var closings := loop.Finish();
    run := Run(listener, true, loop.log, loop.pending, closings);
    Surrounded(old(os.trace), Opening(link, direct, listener, true), Trace(link, loop.log), loop.pending, closings);
  }

  lemma {:induction false} NoRun(link: Link, goal: Goal, direct: bool, run: Run)
    requires run.log == [] && run.pending == [] && !run.pinged && OnlyCloses(run.closings)
    ensures RunOk(link, goal, direct, 1, run)
    ensures EventsOf(link, direct, run) == Opening(link, direct, run.listener, false) + run.closings
  {
  }
}
