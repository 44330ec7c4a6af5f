/** Counting what the control loop has seen and sent, and when its goal is met. */
module Accounting {
  import opened Frame
  import opened Kernel
  import opened Streams
  import opened Wire

  /** How a session is asked to end: after so many answers, possibly exchanging test frames. */
  datatype Goal = Goal(pingCount: int, frameCount: int, expectFrame: bool, eachPong: bool)

  datatype Kind = Pong | FrameSent | FrameGot

  predicate Is(kind: Kind, e: Event) {
    match kind
    case Pong => e.Received? && e.msg.typ == MSG_PONG
    case FrameSent => e.Sent? && e.msg.typ == MSG_TAP_FRAME
    case FrameGot => e.Received? && e.msg.typ == MSG_TAP_FRAME
  }

  function Count(kind: Kind, es: seq<Event>): nat {
    if es == [] then 0
    else Count(kind, es[..|es| - 1]) + if Is(kind, es[|es| - 1]) then 1 else 0
  }

  /** The test frames owed after so many answers: one for each up to the count, or all at the first. */
  function Due(goal: Goal, pongs: nat): nat {
    if goal.frameCount <= 0 || pongs == 0 then 0
    else if goal.eachPong && pongs < goal.frameCount then pongs
    else goal.frameCount
  }

  predicate Met(goal: Goal, pongs: nat, gotFrame: bool) {
    goal.pingCount > 0 && pongs >= goal.pingCount && (!goal.expectFrame || gotFrame)
  }

  lemma {:induction false} CountConcat(kind: Kind, a: seq<Event>, b: seq<Event>)
    ensures Count(kind, a + b) == Count(kind, a) + Count(kind, b)
  {
    if b == [] {
      assert a + b == a;
    } else {
      CountConcat(kind, a, b[..|b| - 1]);
      assert (a + b)[..|a + b| - 1] == a + b[..|b| - 1];
    }
  }

  lemma {:induction false} CountNone(kind: Kind, es: seq<Event>)
    requires forall i | 0 <= i < |es| :: !Is(kind, es[i])
    ensures Count(kind, es) == 0
  {
    if es != [] {
      CountNone(kind, es[..|es| - 1]);
    }
  }

  lemma {:induction false} CountOne(kind: Kind, e: Event)
    ensures Count(kind, [e]) == if Is(kind, e) then 1 else 0
  {
    assert [e][..0] == [];
  }

  lemma {:induction false} StreamActionsCountNothing(link: Link, t: Table, a: Action, kind: Kind)
    requires Enabled(link, t, a) && !a.Aside?
    ensures Count(kind, Effects(link, t, a)) == 0
  {
    hide SocksDataLayout, SocksCloseLayout, ParseSocksOpen, ParseSocksClose, ParseSocksData, Count;
    assert forall i | 0 <= i < |Effects(link, t, a)| :: !Is(kind, Effects(link, t, a)[i]);
    CountNone(kind, Effects(link, t, a));
  }

  /** A later run: more actions, all of them on streams. */
  ghost predicate Extends(before: Log, after: Log) {
    |before| <= |after| && after[..|before|] == before && forall i | |before| <= i < |after| :: !after[i].Aside?
  }

  lemma {:induction false} ExtendsSelf(log: Log)
    ensures Extends(log, log)
  {
  }

  lemma {:induction false} ExtendsStep(first: Log, before: Log, after: Log)
    requires Extends(first, before) && after != [] && Init(after) == before && !Final(after).Aside?
    ensures Extends(first, after)
  {
    assert after[..|first|] == before[..|first|];
    assert forall i | 0 <= i < |before| :: after[i] == before[i];
  }

  /** Actions on streams leave all counts alone. */
  lemma {:induction false} ExtendsCounts(link: Link, before: Log, after: Log, kind: Kind)
    requires Legal(link, after) && Extends(before, after)
    ensures Count(kind, Trace(link, after)) == Count(kind, Trace(link, before))
    decreases |after|
  {
    if |after| == |before| {
      assert after == after[..|before|] == before;
    } else {
      var init := Init(after);
      assert after[|after| - 1] == Final(after);
      assert init[..|before|] == before;
      assert forall i | |before| <= i < |init| :: init[i] == after[i];
      ExtendsCounts(link, before, init, kind);
      StreamActionsCountNothing(link, After(init), Final(after), kind);
      hide Effects, Enabled, Count;
      CountConcat(kind, Trace(link, init), Effects(link, After(init), Final(after)));
    }
  }

  /** An aside adds the counts of its events. */
  lemma {:induction false} AsideCounts(link: Link, log: Log, es: seq<Event>, kind: Kind)
    ensures Count(kind, Trace(link, log + [Aside(es)])) == Count(kind, Trace(link, log)) + Count(kind, es)
  {
    hide Count;
    LogStep(link, log, Aside(es));
    CountConcat(kind, Trace(link, log), es);
  }

  // -------------------------------------------------------------------------
  // In numbers
  // -------------------------------------------------------------------------

  /** Counted are the answers (type 9) received, and the frames (type 7) sent and received. */
  predicate CountsAs(kind: Kind, e: Event) {
    match kind
    case Pong => e.Received? && e.msg.typ == 9
    case FrameSent => e.Sent? && e.msg.typ == 7
    case FrameGot => e.Received? && e.msg.typ == 7
  }

  /** Where in a trace the events of a kind are. */
  function Places(kind: Kind, es: seq<Event>): set<nat> {
    set i: nat | i < |es| && CountsAs(kind, es[i])
  }

  lemma {:induction false} CountIsSize(kind: Kind, es: seq<Event>)
    ensures Count(kind, es) == |Places(kind, es)|
  {
    if es != [] {
      var n := |es| - 1;
      CountIsSize(kind, es[..n]);
      LastPlace(kind, es);
      assert Is(kind, es[n]) <==> CountsAs(kind, es[n]);
      hide Is, CountsAs, Places;
    }
  }

  lemma {:induction false} LastPlace(kind: Kind, es: seq<Event>)
    requires es != []
    ensures var n := |es| - 1;
      |Places(kind, es)| == |Places(kind, es[..n])| + if CountsAs(kind, es[n]) then 1 else 0
  {
    var n := |es| - 1;
    hide CountsAs;
    assert Places(kind, es) == Places(kind, es[..n]) + if CountsAs(kind, es[n]) then {n} else {};
  }

  /** One frame is due for each answer up to the number of frames, or all frames from the first answer on. */
  lemma {:induction false} DueIs(goal: Goal, pongs: nat)
    ensures goal.frameCount <= 0 || pongs == 0 ==> Due(goal, pongs) == 0
    ensures goal.frameCount > 0 && goal.eachPong ==>
      Due(goal, pongs) <= pongs && Due(goal, pongs) <= goal.frameCount
      && (Due(goal, pongs) == pongs || Due(goal, pongs) == goal.frameCount)
    ensures goal.frameCount > 0 && !goal.eachPong && pongs > 0 ==> Due(goal, pongs) == goal.frameCount
  {
  }
}
