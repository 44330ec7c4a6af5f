/** The streams over a whole finished run of the control loop, including what it was doing when it stopped. */
module ControlRuns {
  import opened Accounting
  import opened Bytes
  import opened Frame
  import opened Kernel
  import opened Options
  import opened Streams
  import opened StreamRuns
  import opened Wire
  import ControlLoop

  lemma {:induction false} ClosingsMoveNothing(closings: seq<Event>, fd: int)
    requires OnlyCloses(closings)
    ensures WrittenSince(closings, fd) == [] && ReadSince(closings, fd) == [] && Opened(fd) !in closings
  {
    StillSince(closings, fd);
  }

  /** The event in progress that touches a descriptor's bytes, if there is one. */
  lemma {:induction false} PendingMoves(link: Link, t: Table, pending: seq<Event>, fd: int)
    requires pending != [] && ControlLoop.HaltedBy(link, t, pending)
    ensures Opened(fd) !in pending
    ensures WrittenSince(pending, fd) == if |pending| == 2 && pending[1].Wrote? && pending[1].fd == fd then pending[1].bytes else []
    ensures ReadSince(pending, fd) == NotSent(pending, fd)
  {
    HaltShape(link, t, pending);
    hide ControlLoop.HaltedBy;
    LastMoves(pending, fd);
    if |pending| == 2 {
      LastMoves(pending[..1], fd);
    }
  }

  lemma {:induction false} HaltShape(link: Link, t: Table, pending: seq<Event>)
    requires pending != [] && ControlLoop.HaltedBy(link, t, pending)
    ensures |pending| <= 2 && !pending[0].Wrote? && forall i | 0 <= i < |pending| :: !pending[i].Opened?
    ensures |pending| == 1 ==> !pending[0].Read?
    ensures |pending| == 2 ==> !pending[1].Read?
  {
    hide ControlLoop.Unacceptable, ControlLoop.CutShort, IsTestFrame, CloseMsg, DataMsg;
    if |pending| == 2 && !pending[0].Received? {
      var id :| ControlLoop.NotPassedOn(link, t, id, pending[0], pending[1]);
    }
  }

  lemma {:induction false} PendingMovesIfAny(link: Link, t: Table, pending: seq<Event>, fd: int)
    requires pending == [] || ControlLoop.HaltedBy(link, t, pending)
    ensures Opened(fd) !in pending
    ensures WrittenSince(pending, fd) == if |pending| == 2 && pending[1].Wrote? && pending[1].fd == fd then pending[1].bytes else []
    ensures ReadSince(pending, fd) == NotSent(pending, fd)
  {
    if pending != [] {
      PendingMoves(link, t, pending, fd);
    }
  }

  /** What was read from a descriptor last and could not be sent. */
  function NotSent(pending: seq<Event>, fd: int): seq<byte> {
    if |pending| == 2 && pending[0].Read? && pending[0].fd == fd then pending[0].bytes else []
  }

  /**
   * When the loop is left, the target of a stream's latest lifetime has been
   * written exactly the delivered payloads and, if a write failed, a proper
   * beginning of the next payload for the same stream.
   */
  lemma {:induction false} UploadAtTheEnd(link: Link, goal: Goal, direct: bool, rc: int, run: ControlLoop.Run, id: u32, fd: int)
    requires ControlLoop.RunOk(link, goal, direct, rc, run) && run.pinged && Lifetime(run.log, id, fd)
    ensures var written := WrittenSince(Trace(link, run.log) + run.pending + run.closings, fd);
      var d := Delivered(LogSince(run.log, id), id);
      || written == d
      || exists raw, part, data ::
           && run.pending == [Received(link.fd, raw), Wrote(fd, part)]
           && raw.typ == MSG_SOCKS_STREAM_DATA && ParseSocksData(raw.payload) == Some(SocksData(id, data))
           && Receiving(After(run.log), id)
           && part < data && written == d + part
  {
    hide WrittenSince, ReadSince, Delivered, Legal, Trace, ParseSocksData, ParseSocksOpen, ParseSocksClose, ParseTapFrame, Lifetime;
    UploadIsFaithful(link, run.log, id, fd);
    LifetimeFacts(link, run.log, id, fd);
    PendingMovesIfAny(link, After(run.log), run.pending, fd);
    ClosingsMoveNothing(run.closings, fd);
    SinceConcat(Trace(link, run.log), run.pending, fd);
    SinceConcat(Trace(link, run.log) + run.pending, run.closings, fd);
    if |run.pending| == 2 && run.pending[1].Wrote? && run.pending[1].fd == fd {
      var raw, part := run.pending[0].msg, run.pending[1].bytes;
      var d := ParseSocksData(raw.payload).value;
      assert d.streamId == id;
      assert run.pending == [Received(link.fd, raw), Wrote(fd, part)];
      assert ParseSocksData(raw.payload) == Some(SocksData(id, d.data));
    }
  }

  /** And the payloads sent for it are exactly the bytes read from it, except a last chunk that could not be sent. */
  lemma {:induction false} DownloadAtTheEnd(link: Link, goal: Goal, direct: bool, rc: int, run: ControlLoop.Run, id: u32, fd: int)
    requires ControlLoop.RunOk(link, goal, direct, rc, run) && run.pinged && Lifetime(run.log, id, fd)
    ensures ReadSince(Trace(link, run.log) + run.pending + run.closings, fd)
      == PayloadOf(Told(EventsSince(link, run.log, id), id))
         + NotSent(run.pending, fd)
  {
    hide WrittenSince, ReadSince, Legal, Trace, Lifetime, PayloadOf, Told, EventsSince;
    DownloadIsFaithful(link, run.log, id, fd);
    PendingMovesIfAny(link, After(run.log), run.pending, fd);
    ClosingsMoveNothing(run.closings, fd);
    SinceConcat(Trace(link, run.log), run.pending, fd);
    SinceConcat(Trace(link, run.log) + run.pending, run.closings, fd);
  }

  /** The loop was left because nothing was heard of the peer. */
  predicate PeerLost(link: Link, pending: seq<Event>) {
    pending == [Unheard(link.fd)]
  }

  /** It was left because a frame could not be sent. */
  predicate FrameFailed(pending: seq<Event>) {
    |pending| == 1 && pending[0].Unsent? && pending[0].msg.typ == 7
  }

  /**
   * The result in numbers. Zero comes of as many answers as wanted, at least one,
   * with a frame received if one is expected; or of the loss of the peer after an
   * answer if neither is wanted. As many frames were sent as are due for the
   * answers, or fewer if one could not be sent. It goes on as long as it should.
   */
  lemma {:induction false} ResultInNumbers(link: Link, goal: Goal, direct: bool, rc: int, run: ControlLoop.Run)
    requires ControlLoop.RunOk(link, goal, direct, rc, run) && run.pinged
    ensures rc == 0 || rc == 1
    ensures var trace := Trace(link, run.log);
      var pongs, sent, got := |Places(Pong, trace)|, |Places(FrameSent, trace)|, |Places(FrameGot, trace)|;
      var done := goal.pingCount > 0 && pongs >= goal.pingCount && (goal.expectFrame ==> got > 0);
      && (run.pending == [] ==> rc == 0 && done)
      && (run.pending != [] ==>
            (rc == 0 <==> PeerLost(link, run.pending) && pongs > 0 && goal.pingCount <= 0 && !goal.expectFrame))
      && (run.pending != [] && !FrameFailed(run.pending) ==> !done)
      && (!FrameFailed(run.pending) && goal.frameCount > 0 && goal.eachPong ==>
            sent == if pongs < goal.frameCount then pongs else goal.frameCount)
      && (!FrameFailed(run.pending) && goal.frameCount > 0 && !goal.eachPong ==> sent == if pongs == 0 then 0 else goal.frameCount)
      && (!FrameFailed(run.pending) && goal.frameCount <= 0 ==> sent == 0)
      && (FrameFailed(run.pending) ==> goal.frameCount > 0 && sent < goal.frameCount && (goal.eachPong ==> sent < pongs))
  {
    var trace := Trace(link, run.log);
    CountIsSize(Pong, trace);
    CountIsSize(FrameSent, trace);
    CountIsSize(FrameGot, trace);
    DueIs(goal, |Places(Pong, trace)|);
    LostExactly(link, run);
    hide Count, Places, Trace, Legal, After, ControlLoop.HaltedBy;
  }

  lemma {:induction false} LostExactly(link: Link, run: ControlLoop.Run)
    requires run.pending == [] || ControlLoop.HaltedBy(link, After(run.log), run.pending)
    ensures ControlLoop.NothingHeard(run.pending) <==> PeerLost(link, run.pending)
  {
    hide After;
  }
}
