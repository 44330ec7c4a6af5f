/** A whole session with the server, and the driver that starts one session after another. */
module Session {
  import opened Accounting
  import opened Address
  import opened DirectAccess
  import opened Frame
  import opened Handshake
  import opened Kernel
  import opened Options
  import opened Text
  import opened Wire
  import ControlLoop
  import Relay
  import Streams
  import TapHub

  /** What a node is configured with. */
  datatype Node = Node(server: string, who: Signer, me: Identity)

  ghost predicate NodeOk(node: Node) {
    NUL !in node.server && SignerOk(node.who)
  }

  datatype Served =
    | Nothing
    | Control(control: ControlLoop.Run)
    | Tap(setup: Relay.Setup, tap: TapHub.Run)

  /** What a session was: no connection at all, or so many events of an exchange and what was served after it. */
  datatype Ended =
    | Unconnected(tried: seq<Event>)
    | Connected(fd: int, host: string, port: string, x: Exchange, steps: nat, cause: seq<Event>, served: Served)

  function LinkOf(fd: int, x: Exchange): Streams.Link
    requires Granted(x).Some?
  {
    Streams.Link(fd, Granted(x).value.sessionId, Granted(x).value.networkId)
  }

  predicate Direct(c: ConfigPush) {
    c.directEnabled != 0 && c.directPort != 0
  }

  function ServedEvents(link: Streams.Link, direct: bool, served: Served): seq<Event> {
    match served
    case Nothing => []
    case Control(run) => ControlLoop.EventsOf(link, direct, run)
    case Tap(s, run) => TapHub.EventsOf(s, direct, run)
  }

  function AfterExchange(fd: int, x: Exchange, served: Served): seq<Event>
    requires !served.Nothing? ==> Granted(x).Some? && Settings(x).Some?
  {
    if served.Nothing? then [] else ServedEvents(LinkOf(fd, x), Direct(Settings(x).value), served)
  }

  /** Something is served only after an exchange in which access was granted. */
  predicate Shaped(e: Ended) {
    e.Connected? ==> e.steps <= STEPS && (!e.served.Nothing? ==> Granted(e.x).Some? && Settings(e.x).Some?)
  }

  function EventsOf(node: Node, e: Ended): seq<Event>
    requires Shaped(e)
  {
    if e.Unconnected? then e.tried
    else
      [Opened(e.fd), Dialed(e.fd, e.host, e.port)] + Greeting(node.who, e.fd, e.x)[..e.steps] + e.cause
      + AfterExchange(e.fd, e.x, e.served) + [Closed(e.fd)]
  }

  /** How a session may go, and what its result then is. */
  ghost predicate EndedOk(node: Node, goal: Goal, tapMode: bool, rc: int, e: Ended) {
    var parts := SplitAddr(node.server, ADDR_HOST_MAX, ADDR_PORT_MAX);
    match e
    case Unconnected(tried) =>
      rc == 1 && tried == if parts.None? then [] else [Unreachable(parts.value.0, parts.value.1)]
    case Connected(fd, host, port, x, steps, cause, served) =>
      && parts == Some((host, port))
      && steps <= STEPS
      && match served
         case Nothing =>
           FailedOk(node.who, fd, x, steps, cause, rc)
           || (steps == STEPS && cause == [] && Authorised(x) && tapMode && Settings(x).value.tapEnabled == 0 && rc == 1)
         case Control(run) =>
           && steps == STEPS && cause == [] && Authorised(x) && !tapMode
           && ControlLoop.RunOk(LinkOf(fd, x), goal, Direct(Settings(x).value), rc, run)
         case Tap(s, run) =>
           && steps == STEPS && cause == [] && Authorised(x) && tapMode && Settings(x).value.tapEnabled != 0 && rc == -1
           && s.link == LinkOf(fd, x) && s.mtu == Settings(x).value.mtu && s.me == node.me
           && TapHub.RunOk(s, Direct(Settings(x).value), run)
  }

  method RunSession(os: Os, node: Node, goal: Goal, tapMode: bool) returns (rc: int, ghost e: Ended)
    requires os.Valid() && NodeOk(node)
    modifies os
    ensures os.Valid() && os.open == old(os.open)
    ensures Shaped(e) && EndedOk(node, goal, tapMode, rc, e) && os.trace == old(os.trace) + EventsOf(node, e)
    ensures Balanced(EventsOf(node, e))
    ensures e.Connected? && !e.served.Nothing? ==>
      && e.x.hello.typ == 1 && ParseHello(e.x.hello.payload).Some? && ParseHello(e.x.hello.payload).value.role == 0
      && e.x.auth.typ == 4 && ParseAuthOk(e.x.auth.payload).Some?
      && e.x.config.typ == 6 && ParseConfig(e.x.config.payload).Some?
      && ParseConfig(e.x.config.payload).value.networkId == ParseAuthOk(e.x.auth.payload).value.networkId != 0
    ensures rc == 3 <==> e.Connected? && e.served.Nothing? && e.steps == 4 && e.x.auth.typ == 5
  {
    hide Os.Valid, EndedOk, Shaped, EventsOf, ParseHello, ParseAuthOk, ParseConfig;
    ghost var base, before := os.base, os.trace;
    IsDisciplined(os);
    rc, e := ConnectAndConverse(os, node, goal, tapMode);
    IsDisciplined(os);
    EndedMeans(node, goal, tapMode, rc, e);
    NothingLeftOpen(base, before, EventsOf(node, e));
  }

  lemma IsDisciplined(os: Os)
    requires os.Valid()
    ensures os.open == OpenAfter(os.base, os.trace) && Disciplined(os.base, os.trace)
  {
  }

  /**
   * What a session comes to: something is served only after a hello of role 0, an
   * AUTH_OK and a CONFIG_PUSH for the same network, which is not zero. It is served
   * over the link that these grant. Three comes of an AUTH_FAIL alone, and zero of
   * a control loop alone.
   */
  lemma {:induction false} EndedMeans(node: Node, goal: Goal, tapMode: bool, rc: int, e: Ended)
    requires Shaped(e) && EndedOk(node, goal, tapMode, rc, e)
    ensures e.Connected? && !e.served.Nothing? ==>
      && e.x.hello.typ == 1 && ParseHello(e.x.hello.payload).Some? && ParseHello(e.x.hello.payload).value.role == 0
      && e.x.auth.typ == 4 && ParseAuthOk(e.x.auth.payload).Some?
      && e.x.config.typ == 6 && ParseConfig(e.x.config.payload).Some?
      && ParseConfig(e.x.config.payload).value.networkId == ParseAuthOk(e.x.auth.payload).value.networkId != 0
    ensures e.Connected? && !e.served.Nothing? ==>
      && var a, c := ParseAuthOk(e.x.auth.payload).value, ParseConfig(e.x.config.payload).value;
         && LinkOf(e.fd, e.x) == Streams.Link(e.fd, a.sessionId, a.networkId)
         && (e.served.Tap? <==> tapMode && c.tapEnabled != 0)
         && (e.served.Tap? ==>
               e.served.setup.link == LinkOf(e.fd, e.x) && e.served.setup.mtu == c.mtu && e.served.setup.me == node.me)
    ensures rc == 3 <==> e.Connected? && e.served.Nothing? && e.steps == 4 && e.x.auth.typ == 5
    ensures rc == 0 ==> e.Connected? && e.served.Control?
    ensures e.Connected? ==> SplitAddr(node.server, 256, 32) == Some((e.host, e.port))
  {
    hide SplitAddr, ParseHello, ParseAuthOk, ParseConfig, TapHub.RunOk, FailedOk, Authorised;
    if e.Connected? {
      if Authorised(e.x) {
        AuthorisedMeans(e.x);
        GrantedMeans(e.x);
      }
      if e.served.Nothing? && FailedOk(node.who, e.fd, e.x, e.steps, e.cause, rc) {
        FailureMeans(node.who, e.fd, e.x, e.steps, e.cause, rc);
      }
    }
    hide Granted, Settings, ControlLoop.HaltedBy, Streams.Legal, Streams.Trace, Count;
  }

  /**
   * A loop begins with a listener exactly if direct access is switched on for a
   * port, and then with a ping: type 8 and no payload, under the granted session.
   */
  lemma {:induction false} ServedBegins(link: Streams.Link, c: ConfigPush, served: Served)
    ensures var listen := c.directEnabled != 0 && c.directPort != 0;
      var ping := Msg(8, link.session, []);
      var es := ServedEvents(link, Direct(c), served);
      && (served.Control? ==>
            var run := served.control;
            es == (if listen && run.listener.None? then [NotOpened]
                   else (if listen then [Opened(run.listener.value)] else [])
                        + [if run.pinged then Sent(link.fd, ping) else Unsent(link.fd, ping)])
                  + Streams.Trace(link, run.log) + run.pending + run.closings)
      && (served.Tap? && served.setup.link == link ==>
            var s, run := served.setup, served.tap;
            es == (if s.tap == NO_FD then [NotOpened]
                   else if !run.attached then [Opened(s.tap), Unattached(s.tap)]
                   else if listen && run.listener.None? then [Opened(s.tap), NotOpened]
                   else [Opened(s.tap)] + (if listen then [Opened(run.listener.value)] else [])
                        + [if run.pinged then Sent(link.fd, ping) else Unsent(link.fd, ping)])
                  + Relay.Trace(s, run.log) + run.pending + run.closings)
  {
    hide Streams.Trace, Relay.Trace;
  }

  method ConnectAndConverse(os: Os, node: Node, goal: Goal, tapMode: bool) returns (rc: int, ghost e: Ended)
    requires os.Valid() && NodeOk(node)
    modifies os
    ensures os.Valid() && os.open == old(os.open)
    ensures Shaped(e) && EndedOk(node, goal, tapMode, rc, e) && os.trace == old(os.trace) + EventsOf(node, e)
  {
    hide Os.Valid, SplitAddr, Greeting, AfterExchange, EndedOk, Shaped, Granted, Settings;
    var fd := TcpConnect(os, node.server);
    ghost var parts := SplitAddr(node.server, ADDR_HOST_MAX, ADDR_PORT_MAX);
    if fd == NO_FD {
      e := Unconnected(if parts.None? then [] else [Unreachable(parts.value.0, parts.value.1)]);
      NotConnected(node, goal, tapMode, e, old(os.trace));
      return 1, e;
    }
    ghost var x, steps, cause, served;
    rc, x, steps, cause, served := Converse(os, fd, node, goal, tapMode);
    os.Close(fd);
    e := Connected(fd, parts.value.0, parts.value.1, x, steps, cause, served);
    ConnectedEvents(node, e, old(os.trace));
  }

  lemma {:induction false} NotConnected(node: Node, goal: Goal, tapMode: bool, e: Ended, before: seq<Event>)
    requires var parts := SplitAddr(node.server, ADDR_HOST_MAX, ADDR_PORT_MAX);
      e == Unconnected(if parts.None? then [] else [Unreachable(parts.value.0, parts.value.1)])
    ensures Shaped(e) && EndedOk(node, goal, tapMode, 1, e) && before + e.tried == before + EventsOf(node, e)
  {
    hide SplitAddr;
  }

  lemma {:induction false} ConnectedEvents(node: Node, e: Ended, before: seq<Event>)
    requires e.Connected? && e.steps <= STEPS && (!e.served.Nothing? ==> Granted(e.x).Some? && Settings(e.x).Some?)
    ensures Shaped(e)
    ensures before + [Opened(e.fd), Dialed(e.fd, e.host, e.port)] + Greeting(node.who, e.fd, e.x)[..e.steps] + e.cause
      + AfterExchange(e.fd, e.x, e.served) + [Closed(e.fd)] == before + EventsOf(node, e)
  {
    hide Greeting, AfterExchange, Granted, Settings;
  }

  /** The exchange and the loop that it leads to. */
  method Converse(os: Os, fd: int, node: Node, goal: Goal, tapMode: bool)
    returns (rc: int, ghost x: Exchange, ghost steps: nat, ghost cause: seq<Event>, ghost served: Served)
    requires os.Valid() && fd in os.open && NodeOk(node)
    modifies os
    ensures os.Valid() && os.open == old(os.open) && steps <= STEPS
    ensures !served.Nothing? ==> Granted(x).Some? && Settings(x).Some?
    ensures os.trace == old(os.trace) + Greeting(node.who, fd, x)[..steps] + cause + AfterExchange(fd, x, served)
    ensures forall host, port | SplitAddr(node.server, ADDR_HOST_MAX, ADDR_PORT_MAX) == Some((host, port)) ::
      EndedOk(node, goal, tapMode, rc, Connected(fd, host, port, x, steps, cause, served))
  {
    hide Os.Valid, FailedOk, SplitAddr, Greeting, ControlLoop.RunOk, TapHub.RunOk, Authorised, Granted, Settings,
      ParseHello, ParseAuthOk, ParseConfig, ControlLoop.EventsOf, TapHub.EventsOf;
    var granted;
    granted, rc, x, steps, cause := Greet(os, fd, node.who);
    served := Nothing;
    if granted.None? {
      return;
    }
    GrantedMeans(x);
    var (auth, settings) := granted.value;
    var link := Streams.Link(fd, auth.sessionId, auth.networkId);
    var direct := settings.directEnabled != 0 && settings.directPort != 0;
    if tapMode {
      if settings.tapEnabled == 0 {
        rc := 1;
        return;
      }
      ghost var setup, run;
      rc, setup, run := TapHub.RunTapLoop(os, link, node.me, settings.mtu, direct);
      served := Tap(setup, run);
    } else {
      ghost var run;
      rc, run := ControlLoop.RunControlLoop(os, link, node.me, goal, direct);
      served := Control(run);
    }
  }

  // -------------------------------------------------------------------------
  // One session after another
  // -------------------------------------------------------------------------

  function Successes(results: seq<int>): nat {
    if results == [] then 0 else Successes(results[..|results| - 1]) + if results[|results| - 1] == 0 then 1 else 0
  }

  lemma {:induction false} SuccessesAre(results: seq<int>)
    ensures Successes(results) == |set i | 0 <= i < |results| && results[i] == 0|
  {
    if results != [] {
      var n := |results| - 1;
      SuccessesAre(results[..n]);
      assert forall i | 0 <= i < n :: results[..n][i] == results[i];
      assert (set i | 0 <= i < |results| && results[i] == 0)
        == (set i | 0 <= i < n && results[..n][i] == 0) + if results[n] == 0 then {n} else {};
    }
  }

  /**
   * What the driver returns after sessions with these results, if it is done:
   * enough successes, an authentication failure, or too many attempts.
   */
  function Verdict(maxAttempts: int, maxSessions: int, results: seq<int>): Option<int> {
    var last := if results == [] then 1 else results[|results| - 1];
    if maxSessions > 0 && Successes(results) >= maxSessions then Some(0)
    else if last == 3 then Some(3)
    else if maxAttempts > 0 && |results| >= maxAttempts then Some(last)
    else None
  }

  /** No verdict was reached before the last session. */
  ghost predicate Undecided(maxAttempts: int, maxSessions: int, results: seq<int>) {
    forall k | 0 <= k < |results| :: Verdict(maxAttempts, maxSessions, results[..k]) == None
  }

  function AllEvents(node: Node, sessions: seq<Ended>): seq<Event>
    requires forall i | 0 <= i < |sessions| :: Shaped(sessions[i])
  {
    if sessions == [] then []
    else AllEvents(node, sessions[..|sessions| - 1]) + EventsOf(node, sessions[|sessions| - 1])
  }

  ghost predicate AllOk(node: Node, goal: Goal, tapMode: bool, results: seq<int>, sessions: seq<Ended>) {
    |results| == |sessions|
    && forall i | 0 <= i < |results| :: Shaped(sessions[i]) && EndedOk(node, goal, tapMode, results[i], sessions[i])
  }

  /**
   * Runs sessions until the verdict, or until budget sessions have been observed
   * (then rc is None: the driver is still at work).
   */
  method RunLoop(os: Os, node: Node, maxAttempts: int, maxSessions: int, goal: Goal, tapMode: bool, budget: nat)
    returns (rc: Option<int>, ghost results: seq<int>, ghost sessions: seq<Ended>)
    requires os.Valid() && NodeOk(node)
    modifies os
    ensures os.Valid() && os.open == old(os.open)
    ensures AllOk(node, goal, tapMode, results, sessions) && os.trace == old(os.trace) + AllEvents(node, sessions)
    ensures rc == Verdict(maxAttempts, maxSessions, results)
    ensures Undecided(maxAttempts, maxSessions, results)
    ensures rc.None? ==> |results| == budget
  {
    hide Os.Valid, EndedOk, EventsOf, Shaped, AllEvents, Balanced, Undecided;
    NoSession(node, goal, tapMode, os.trace, maxAttempts, maxSessions);
    results, sessions := [], [];
    var attempt, done, last := 0, 0, 1;
    var left: nat := budget;
    while maxSessions <= 0 || done < maxSessions
      invariant os.Valid() && os.open == old(os.open)
      invariant AllOk(node, goal, tapMode, results, sessions) && os.trace == old(os.trace) + AllEvents(node, sessions)
      invariant attempt == |results| && done == Successes(results) && left + attempt == budget
      invariant last == (if results == [] then 1 else results[|results| - 1]) && last != 3
      invariant Undecided(maxAttempts, maxSessions, results)
      decreases left
    {
      if maxAttempts > 0 && attempt >= maxAttempts {
        return Some(last), results, sessions;
      }
      if left == 0 {
        return None, results, sessions;
      }
      attempt, left := attempt + 1, left - 1;
      ghost var e;
      last, e := RunSession(os, node, goal, tapMode);
      StillUndecided(maxAttempts, maxSessions, results, last);
      OneMoreSession(node, goal, tapMode, results, sessions, last, e, old(os.trace));
      results, sessions := results + [last], sessions + [e];
      if last == 0 {
        done := done + 1;
      } else if last == 3 {
        return Some(3), results, sessions;
      }
    }
    rc := Some(0);
  }

  lemma {:induction false} NoSession(node: Node, goal: Goal, tapMode: bool, trace: seq<Event>, maxAttempts: int, maxSessions: int)
    ensures Undecided(maxAttempts, maxSessions, [])
    ensures AllOk(node, goal, tapMode, [], []) && trace + AllEvents(node, []) == trace
  {
  }

  lemma {:induction false} OneMoreSession(
    node: Node, goal: Goal, tapMode: bool, results: seq<int>, sessions: seq<Ended>, rc: int, e: Ended, before: seq<Event>)
    requires AllOk(node, goal, tapMode, results, sessions) && Shaped(e) && EndedOk(node, goal, tapMode, rc, e)
    ensures AllOk(node, goal, tapMode, results + [rc], sessions + [e])
    ensures before + AllEvents(node, sessions) + EventsOf(node, e) == before + AllEvents(node, sessions + [e])
    ensures Successes(results + [rc]) == Successes(results) + if rc == 0 then 1 else 0
    ensures (results + [rc])[..|results|] == results
  {
    hide EndedOk, EventsOf, Shaped;
    assert (results + [rc])[..|results|] == results && (sessions + [e])[..|sessions|] == sessions;
  }

  lemma {:induction false} StillUndecided(maxAttempts: int, maxSessions: int, results: seq<int>, rc: int)
    requires Undecided(maxAttempts, maxSessions, results) && Verdict(maxAttempts, maxSessions, results) == None
    ensures Undecided(maxAttempts, maxSessions, results + [rc])
  {
    hide Verdict;
    var more := results + [rc];
    forall k | 0 <= k < |more|
      ensures Verdict(maxAttempts, maxSessions, more[..k]) == None
    {
      assert more[..k] == if k < |results| then results[..k] else results;
      assert k == |results| ==> results[..k] == results;
    }
  }

  /**
   * What a verdict means: never more than the permitted attempts or the wanted
   * successes. Zero comes exactly of enough successes or of a success in the
   * last permitted attempt, three of a refused authentication in the last
   * session, anything else of the last permitted attempt.
   */
  lemma {:induction false} VerdictMeaning(maxAttempts: int, maxSessions: int, results: seq<int>)
    requires Undecided(maxAttempts, maxSessions, results)
    ensures maxAttempts > 0 ==> |results| <= maxAttempts
    ensures maxSessions > 0 ==> Successes(results) <= maxSessions
    ensures forall k | 0 <= k < |results| - 1 :: results[k] != 3
    ensures var v := Verdict(maxAttempts, maxSessions, results);
      var last := if results == [] then 1 else results[|results| - 1];
      var usedUp := maxAttempts > 0 && |results| == maxAttempts;
      && (v == Some(0) <==> (maxSessions > 0 && Successes(results) == maxSessions) || (usedUp && last == 0))
      && (v == Some(0) ==> last == 0)
      && (v == Some(3) <==> last == 3)
      && (v.Some? && v != Some(0) && v != Some(3) ==> usedUp && v.value == last)
      && (v == None <==> !(maxSessions > 0 && Successes(results) == maxSessions) && !usedUp && last != 3)
  {
    var n := |results|;
    if n > 0 {
      assert Verdict(maxAttempts, maxSessions, results[..n - 1]) == None;
      assert results[..n - 1] + [results[n - 1]] == results;
    }
    forall k | 0 <= k < n - 1
      ensures results[k] != 3
    {
      assert Verdict(maxAttempts, maxSessions, results[..k + 1]) == None;
      assert results[..k + 1][k] == results[k];
    }
  }

  /** Failed sessions, as many as there may be before the last permitted one. */
  function Failures(n: nat): seq<int> {
    seq(n, _ => 1)
  }

  lemma {:induction false} FailuresGoOn(maxAttempts: int, maxSessions: int, n: nat)
    requires maxSessions > 0 && n < maxAttempts
    ensures Successes(Failures(n)) == 0 && Undecided(maxAttempts, maxSessions, Failures(n))
    ensures Verdict(maxAttempts, maxSessions, Failures(n)) == None
  {
    if n > 0 {
      var fewer := Failures(n - 1);
      FailuresGoOn(maxAttempts, maxSessions, n - 1);
      assert Failures(n) == fewer + [1] && Failures(n)[..n - 1] == fewer;
      StillUndecided(maxAttempts, maxSessions, fewer, 1);
    }
  }

  /**
   * A zero means that the wanted number of sessions succeeded, whatever the
   * sessions return, exactly if the attempts are unlimited or one success is
   * wanted. Otherwise a success in the last permitted attempt also ends in zero.
   */
  lemma {:induction false} ZeroMeansEnoughWhen(maxAttempts: int, maxSessions: int)
    requires maxSessions > 0
    ensures (forall results: seq<int> | Undecided(maxAttempts, maxSessions, results)
                                        && Verdict(maxAttempts, maxSessions, results) == Some(0) ::
               Successes(results) == maxSessions)
      <==> maxAttempts <= 0 || maxSessions == 1
  {
    forall results: seq<int> | Undecided(maxAttempts, maxSessions, results)
                               && Verdict(maxAttempts, maxSessions, results) == Some(0)
      ensures maxAttempts <= 0 || maxSessions == 1 ==> Successes(results) == maxSessions
    {
      VerdictMeaning(maxAttempts, maxSessions, results);
    }
    if maxAttempts > 0 && maxSessions > 1 {
      LateSuccessFallsShort(maxAttempts, maxSessions);
    }
  }

  /** The run for which it fails: the last permitted attempt is the first to succeed. */
  lemma {:induction false} LateSuccessFallsShort(maxAttempts: int, maxSessions: int)
    requires maxAttempts > 0 && maxSessions > 1
    ensures var results := Failures(maxAttempts - 1) + [0];
      && Undecided(maxAttempts, maxSessions, results)
      && Verdict(maxAttempts, maxSessions, results) == Some(0)
      && Successes(results) == 1
  {
    var failures := Failures(maxAttempts - 1);
    FailuresGoOn(maxAttempts, maxSessions, maxAttempts - 1);
    StillUndecided(maxAttempts, maxSessions, failures, 0);
    assert (failures + [0])[..maxAttempts - 1] == failures;
  }
}
