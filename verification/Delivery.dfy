/**
 * What the peer of a connection makes of its octets when some messages could not
 * be sent: a failed call may have sent any part of its message but the whole.
 */
module Delivery {
  import opened Bytes
  import opened Frame
  import opened Kernel

  const CLOSE_SIZE := 8

  // -------------------------------------------------------------------------
  // Messages and octets of a connection
  // -------------------------------------------------------------------------

  /** The messages sent on a connection. */
  function SentOn(es: seq<Event>, fd: int): seq<Msg> {
    if es == [] then []
    else
      var e := es[|es| - 1];
      SentOn(es[..|es| - 1], fd) + if e.Sent? && e.fd == fd then [e.msg] else []
  }

  predicate Fails(e: Event, fd: int) {
    e.Unsent? && e.fd == fd
  }

  predicate Attempts(e: Event, fd: int) {
    (e.Sent? || e.Unsent?) && e.fd == fd
  }

  /** Every message that is attempted on the connection is one that the peer would take. */
  ghost predicate Hearable(es: seq<Event>, fd: int, cap: nat) {
    forall i | 0 <= i < |es| && Attempts(es[i], fd) :: Receivable(es[i].msg, cap)
  }

  /** The part of an image that a failed call has sent when n octets were taken. */
  function Part(m: Msg, n: nat): (b: seq<byte>)
    requires |m.payload| < 0x1_0000_0000
    ensures b < Image(m) && |b| == if n < |Image(m)| then n else |Image(m)| - 1
  {
    if n < |Image(m)| then Image(m)[..n] else Image(m)[..|Image(m)| - 1]
  }

  function OctetsOf(e: Event, fd: int, n: nat): seq<byte>
    requires Attempts(e, fd) ==> |e.msg.payload| < 0x1_0000_0000
  {
    if !Attempts(e, fd) then [] else if e.Sent? then Image(e.msg) else Part(e.msg, n)
  }

  /** The octets on the connection, if cut tells how much of each failed message went out. */
  function Octets(es: seq<Event>, fd: int, cut: nat -> nat): seq<byte>
    requires forall i | 0 <= i < |es| && Attempts(es[i], fd) :: |es[i].msg.payload| < 0x1_0000_0000
  {
    if es == [] then []
    else
      var n := |es| - 1;
      Octets(es[..n], fd, cut) + OctetsOf(es[n], fd, cut(n))
  }

  lemma {:induction false} SentConcat(a: seq<Event>, b: seq<Event>, fd: int)
    ensures SentOn(a + b, fd) == SentOn(a, fd) + SentOn(b, fd)
  {
    if b == [] {
      assert a + b == a;
    } else {
      SentConcat(a, b[..|b| - 1], fd);
      assert (a + b)[..|a + b| - 1] == a + b[..|b| - 1];
    }
  }

  lemma {:induction false} NoneSent(es: seq<Event>, fd: int)
    requires forall i | 0 <= i < |es| :: !es[i].Sent?
    ensures SentOn(es, fd) == []
  {
    if es != [] {
      NoneSent(es[..|es| - 1], fd);
    }
  }

  lemma {:induction false} SentLast(es: seq<Event>, fd: int, m: Msg)
    requires forall i | 0 <= i < |es| :: !es[i].Sent?
    ensures SentOn(es + [Sent(fd, m)], fd) == [m]
  {
    NoneSent(es, fd);
    assert (es + [Sent(fd, m)])[..|es|] == es;
  }

  // -------------------------------------------------------------------------
  // Parts of runs
  // -------------------------------------------------------------------------

  ghost predicate Clean(es: seq<Event>, fd: int) {
    forall i | 0 <= i < |es| :: !Fails(es[i], fd)
  }

  ghost predicate Mute(es: seq<Event>, fd: int) {
    forall i | 0 <= i < |es| :: !Attempts(es[i], fd)
  }

  /** Once something could not be sent on the connection, nothing more is attempted on it. */
  ghost predicate StopsAtFailure(es: seq<Event>, fd: int) {
    forall i, j | 0 <= i < j < |es| && Fails(es[i], fd) :: !Attempts(es[j], fd)
  }

  /** The only failures that are ignored are those of eight-octet CLOSE messages. */
  ghost predicate IgnoresOnlyCloses(es: seq<Event>, fd: int) {
    forall i, j | 0 <= i < j < |es| && Fails(es[i], fd) && Attempts(es[j], fd) ::
      es[i].msg.typ == MSG_SOCKS_STREAM_CLOSE && |es[i].msg.payload| == CLOSE_SIZE
  }

  lemma {:induction false} ImagesSnoc(ms: seq<Msg>, m: Msg)
    requires |m.payload| < 0x1_0000_0000 && forall i | 0 <= i < |ms| :: |ms[i].payload| < 0x1_0000_0000
    ensures ImageAll(ms + [m]) == ImageAll(ms) + Image(m)
  {
    ImageAllSnoc(ms + [m], |ms|);
    assert (ms + [m])[..|ms|] == ms && (ms + [m])[..|ms| + 1] == ms + [m];
  }

  lemma {:induction false} SentAreHearable(es: seq<Event>, fd: int, cap: nat)
    requires Hearable(es, fd, cap)
    ensures AllReceivable(SentOn(es, fd), cap)
    ensures forall i | 0 <= i < |SentOn(es, fd)| :: |SentOn(es, fd)[i].payload| < 0x1_0000_0000
  {
    if es != [] {
      SentAreHearable(es[..|es| - 1], fd, cap);
    }
  }

  /** Without a failure the octets are the images of the messages sent. */
  lemma {:induction false} CleanOctets(es: seq<Event>, fd: int, cut: nat -> nat, cap: nat)
    requires Hearable(es, fd, cap) && Clean(es, fd)
    ensures AllReceivable(SentOn(es, fd), cap) && Octets(es, fd, cut) == ImageAll(SentOn(es, fd))
  {
    SentAreHearable(es, fd, cap);
    if es != [] {
      var n := |es| - 1;
      HearablePart(es, fd, cap, n);
      SentAreHearable(es[..n], fd, cap);
      LastOctets(es, fd, cut);
      hide Octets, SentOn, Image, ImageAll, Hearable, AllReceivable;
      assert Clean(es[..n], fd) && !Fails(es[n], fd);
      hide Clean;
      CleanOctets(es[..n], fd, cut, cap);
      if Attempts(es[n], fd) {
        ImagesSnoc(SentOn(es[..n], fd), es[n].msg);
      } else {
        assert SentOn(es, fd) == SentOn(es[..n], fd) && Octets(es, fd, cut) == Octets(es[..n], fd, cut);
      }
    }
  }

  lemma {:induction false} LastOctets(es: seq<Event>, fd: int, cut: nat -> nat)
    requires es != [] && forall i | 0 <= i < |es| && Attempts(es[i], fd) :: |es[i].msg.payload| < 0x1_0000_0000
    ensures var n := |es| - 1;
      var m := es[n];
      && SentOn(es, fd) == SentOn(es[..n], fd) + (if m.Sent? && m.fd == fd then [m.msg] else [])
      && Octets(es, fd, cut) == Octets(es[..n], fd, cut)
         + (if !Attempts(m, fd) then [] else if m.Sent? then Image(m.msg) else Part(m.msg, cut(n)))
  {
  }

  lemma {:induction false} HearablePart(es: seq<Event>, fd: int, cap: nat, n: nat)
    requires Hearable(es, fd, cap) && n <= |es|
    ensures Hearable(es[..n], fd, cap)
  {
    hide Receivable;
  }

  lemma {:induction false} MutePart(es: seq<Event>, n: nat, fd: int)
    requires n < |es| && Mute(es[n..], fd)
    ensures Mute(es[..|es| - 1][n..], fd) && !Attempts(es[|es| - 1], fd)
  {
    var k := |es| - 1;
    assert es[n..][k - n] == es[k];
    assert es[..k][n..] == es[n..][..k - n];
  }

  /** A mute end adds nothing. */
  lemma {:induction false} MuteEnd(es: seq<Event>, n: nat, fd: int, cut: nat -> nat, cap: nat)
    requires Hearable(es, fd, cap) && n <= |es| && Mute(es[n..], fd)
    ensures Octets(es, fd, cut) == Octets(es[..n], fd, cut) && SentOn(es, fd) == SentOn(es[..n], fd)
    decreases |es|
  {
    HearablePart(es, fd, cap, n);
    if n == |es| {
      assert es[..n] == es;
    } else {
      var k := |es| - 1;
      LastOctets(es, fd, cut);
      HearablePart(es, fd, cap, k);
      MutePart(es, n, fd);
      hide Octets, SentOn, Hearable, Mute;
      assert es[..k][..n] == es[..n];
      MuteEnd(es[..k], n, fd, cut, cap);
    }
  }

  /** The octets of a longer run begin with those of a shorter one. */
  lemma {:induction false} OctetsGrow(es: seq<Event>, n: nat, fd: int, cut: nat -> nat, cap: nat)
    requires Hearable(es, fd, cap) && n <= |es|
    ensures Octets(es[..n], fd, cut) <= Octets(es, fd, cut)
    ensures SentOn(es[..n], fd) <= SentOn(es, fd)
    decreases |es|
  {
    if n == |es| {
      assert es[..n] == es;
    } else {
      var k := |es| - 1;
      assert es[..k][..n] == es[..n];
      OctetsGrow(es[..k], n, fd, cut, cap);
    }
  }

  // -------------------------------------------------------------------------
  // When the peer hears exactly what was sent
  // -------------------------------------------------------------------------

  /** A run that stops at its first failure is heard as exactly the messages sent, wherever the last one was cut. */
  lemma {:induction false} StoppedIsHeard(es: seq<Event>, fd: int, cut: nat -> nat, cap: nat)
    requires Hearable(es, fd, cap) && StopsAtFailure(es, fd)
    ensures DeframeAll(Octets(es, fd, cut), cap) == SentOn(es, fd)
  {
    hide Image, Deframe, DeframeAll, ImageAll, Octets, SentOn;
    if i :| 0 <= i < |es| && Fails(es[i], fd) {
      var head := es[..i];
      assert Clean(head, fd) by {
        forall k | 0 <= k < |head|
          ensures !Fails(head[k], fd)
        {
          assert head[k] == es[k] && Attempts(es[i], fd);
        }
      }
      assert Mute(es[i + 1..], fd);
      assert es[..i + 1][..i] == head;
      CleanOctets(head, fd, cut, cap);
      MuteEnd(es, i + 1, fd, cut, cap);
      HearablePart(es, fd, cap, i + 1);
      LastOctets(es[..i + 1], fd, cut);
      CutOffIsUnheard(SentOn(head, fd), es[i].msg, |Part(es[i].msg, cut(i))|, cap);
      assert Part(es[i].msg, cut(i)) == Image(es[i].msg)[..|Part(es[i].msg, cut(i))|];
    } else {
      CleanOctets(es, fd, cut, cap);
      AllSentIsReceived(SentOn(es, fd), cap);
    }
  }

  lemma {:induction false} SentFirst(ms: seq<Msg>, rest: seq<byte>, cap: nat)
    requires AllReceivable(ms, cap)
    ensures DeframeAll(ImageAll(ms) + rest, cap) == ms + DeframeAll(rest, cap)
  {
    hide Image, Deframe, DeframeAll;
    if ms == [] {
      assert ImageAll(ms) + rest == rest;
    } else {
      RestReceivable(ms, cap);
      ImagesAndRest(ms, rest);
      hide ImageAll, Receivable, AllReceivable;
      var got := DeframeAll(rest, cap);
      SentFirst(ms[1..], rest, cap);
      FirstReceived(ms[0], ImageAll(ms[1..]) + rest, cap);
      assert [ms[0]] + (ms[1..] + got) == ms + got;
    }
  }

  lemma {:induction false} ImagesAndRest(ms: seq<Msg>, rest: seq<byte>)
    requires ms != [] && forall i | 0 <= i < |ms| :: |ms[i].payload| < 0x1_0000_0000
    ensures ImageAll(ms) + rest == Image(ms[0]) + (ImageAll(ms[1..]) + rest)
  {
    hide Image;
  }

  // -------------------------------------------------------------------------
  // When it does not
  // -------------------------------------------------------------------------

  /** A stretch without messages sent, whose failures send nothing, adds nothing. */
  lemma {:induction false} SilentStretch(es: seq<Event>, i: nat, n: nat, fd: int, cut: nat -> nat, cap: nat)
    requires Hearable(es, fd, cap) && i <= n <= |es|
    requires forall k | i <= k < n :: !(es[k].Sent? && es[k].fd == fd) && (Fails(es[k], fd) ==> cut(k) == 0)
    ensures Octets(es[..n], fd, cut) == Octets(es[..i], fd, cut) && SentOn(es[..n], fd) == SentOn(es[..i], fd)
    decreases n
  {
    if i < n {
      SilentStretch(es, i, n - 1, fd, cut, cap);
      HearablePart(es, fd, cap, n);
      LastOctets(es[..n], fd, cut);
      assert es[..n][..n - 1] == es[..n - 1];
    }
  }

  lemma {:induction false} NextOctets(es: seq<Event>, k: nat, fd: int, cut: nat -> nat, cap: nat)
    requires Hearable(es, fd, cap) && k < |es| && Attempts(es[k], fd)
    ensures Octets(es[..k + 1], fd, cut)
      == Octets(es[..k], fd, cut) + if es[k].Sent? then Image(es[k].msg) else Part(es[k].msg, cut(k))
    ensures SentOn(es[..k + 1], fd) == SentOn(es[..k], fd) + if es[k].Sent? then [es[k].msg] else []
  {
    HearablePart(es, fd, cap, k + 1);
    LastOctets(es[..k + 1], fd, cut);
    assert es[..k + 1][..k] == es[..k];
  }

  /** An octet too many in front of an image makes the receiver refuse. */
  lemma {:induction false} ShiftedIsRefused(m: Msg, late: Msg, rest: seq<byte>, cap: nat)
    requires |m.payload| < 0x1_0000_0000 && |late.payload| < 0x1_0000_0000
    ensures DeframeAll(Part(m, 1) + Image(late) + rest, cap) == []
  {
    var s := Part(m, 1) + Image(late) + rest;
    MagicFirst(m);
    MagicFirst(late);
    assert s[..HDR_SIZE][..4] == [0x4e, 0x4e, 0x54, 0x41];
    assert HdrOf(s[..HDR_SIZE]).magic == Get32([0x4e, 0x4e, 0x54, 0x41]) != MAGIC;
  }

  lemma {:induction false} MagicFirst(m: Msg)
    requires |m.payload| < 0x1_0000_0000
    ensures |Image(m)| == HDR_SIZE + |m.payload|
    ensures Image(m)[..CLOSE_SIZE] == [0x4e, 0x54, 0x41, 0x50, VERSION, m.typ, 0, 0]
  {
    HdrParts(Hdr(MAGIC, VERSION, m.typ, 0, m.session, |m.payload|));
    assert Be32(MAGIC) == [0x4e, 0x54, 0x41, 0x50] && Be16(0) == [0, 0];
    var b := Image(m);
    assert b[..4] == HdrLayout(Hdr(MAGIC, VERSION, m.typ, 0, m.session, |m.payload|))[..4];
    assert b[6..8] == HdrLayout(Hdr(MAGIC, VERSION, m.typ, 0, m.session, |m.payload|))[6..8];
    assert b[..8] == b[..4] + [b[4], b[5]] + b[6..8];
  }

  /** The header of a CLOSE that was cut takes the next eight octets for its payload. */
  lemma {:induction false} HeaderTakesNext(m: Msg, next: Msg, cap: nat)
    requires m.typ == MSG_SOCKS_STREAM_CLOSE && |m.payload| == CLOSE_SIZE <= cap
    requires |next.payload| < 0x1_0000_0000
    ensures var misread := Msg(m.typ, m.session, Image(next)[..CLOSE_SIZE]);
      Part(m, HDR_SIZE) + Image(next)[..CLOSE_SIZE] == Image(misread) && Receivable(misread, cap)
  {
    var h := Hdr(MAGIC, VERSION, m.typ, 0, m.session, CLOSE_SIZE);
    assert Part(m, HDR_SIZE) == HdrLayout(h);
  }

  lemma {:induction false} FirstFailure(es: seq<Event>, fd: int, n: nat) returns (i: nat)
    requires n < |es| && Fails(es[n], fd)
    ensures i <= n && Fails(es[i], fd) && Clean(es[..i], fd)
  {
    i := 0;
    while !Fails(es[i], fd)
      invariant i <= n && Clean(es[..i], fd)
      decreases n - i
    {
      i := i + 1;
    }
  }

  /** The octets up to the next attempt after a first failure, if those in between send nothing. */
  lemma {:induction false} OctetsAround(es: seq<Event>, fd: int, i: nat, j: nat, cut: nat -> nat, cap: nat)
    requires Hearable(es, fd, cap) && i < j < |es| && Fails(es[i], fd) && Clean(es[..i], fd) && Attempts(es[j], fd)
    requires forall k | i < k < j :: !(es[k].Sent? && es[k].fd == fd) && (Fails(es[k], fd) ==> cut(k) == 0)
    ensures var ms := SentOn(es[..i], fd);
      var next := if es[j].Sent? then Image(es[j].msg) else Part(es[j].msg, cut(j));
      && AllReceivable(ms, cap)
      && Octets(es[..j + 1], fd, cut) == ImageAll(ms) + (Part(es[i].msg, cut(i)) + next)
      && SentOn(es[..j + 1], fd) == ms + if es[j].Sent? then [es[j].msg] else []
  {
    hide Octets, SentOn, Image, ImageAll;
    HearablePart(es, fd, cap, i);
    CleanOctets(es[..i], fd, cut, cap);
    NextOctets(es, i, fd, cut, cap);
    SilentStretch(es, i + 1, j, fd, cut, cap);
    NextOctets(es, j, fd, cut, cap);
    var ms := SentOn(es[..i], fd);
    var part := Part(es[i].msg, cut(i));
    var next := if es[j].Sent? then Image(es[j].msg) else Part(es[j].msg, cut(j));
    assert ms + [] == ms;
    assert ImageAll(ms) + part + next == ImageAll(ms) + (part + next);
  }

  /** If something is sent after a failure, the peer may refuse it. */
  lemma {:induction false} LaterSentIsLost(es: seq<Event>, fd: int, i: nat, j: nat, cap: nat) returns (cut: nat -> nat)
    requires Hearable(es, fd, cap) && i < j < |es| && Fails(es[i], fd) && Clean(es[..i], fd)
    requires es[j].Sent? && es[j].fd == fd && forall k | i < k < j :: !(es[k].Sent? && es[k].fd == fd)
    ensures DeframeAll(Octets(es, fd, cut), cap) == SentOn(es[..i], fd) != SentOn(es, fd)
  {
    hide Octets, SentOn, Image, DeframeAll, ImageAll, Part, Hearable;
    cut := k => if k == i then 1 else 0;
    OctetsAround(es, fd, i, j, cut, cap);
    OctetsGrow(es, j + 1, fd, cut, cap);
    AttemptsFit(es, fd, cap);
    RefusedFrom(SentOn(es[..i], fd), es[i].msg, es[j].msg, Octets(es, fd, cut), cap);
    assert |SentOn(es[..j + 1], fd)| == |SentOn(es[..i], fd)| + 1;
  }

  lemma {:induction false} AttemptsFit(es: seq<Event>, fd: int, cap: nat)
    requires Hearable(es, fd, cap)
    ensures forall i | 0 <= i < |es| && Attempts(es[i], fd) :: |es[i].msg.payload| < 0x1_0000_0000
  {
  }

  lemma {:induction false} RefusedFrom(ms: seq<Msg>, m: Msg, late: Msg, whole: seq<byte>, cap: nat)
    requires AllReceivable(ms, cap) && |m.payload| < 0x1_0000_0000 && |late.payload| < 0x1_0000_0000
    requires ImageAll(ms) + (Part(m, 1) + Image(late)) <= whole
    ensures DeframeAll(whole, cap) == ms
  {
    hide Image, DeframeAll, ImageAll, Part;
    var images, after := ImageAll(ms), Part(m, 1) + Image(late);
    var rest := whole[|images + after|..];
    assert whole == images + after + rest == images + (after + rest);
    SentFirst(ms, after + rest, cap);
    ShiftedIsRefused(m, late, rest, cap);
    assert ms + [] == ms;
  }

  lemma {:induction false} MisreadFrom(ms: seq<Msg>, m: Msg, next: Msg, cap: nat)
    requires AllReceivable(ms, cap) && |next.payload| < 0x1_0000_0000
    requires m.typ == MSG_SOCKS_STREAM_CLOSE && |m.payload| == CLOSE_SIZE <= cap
    ensures var misread := Msg(m.typ, m.session, Image(next)[..CLOSE_SIZE]);
      DeframeAll(ImageAll(ms) + (Part(m, HDR_SIZE) + Part(next, CLOSE_SIZE)), cap) == ms + [misread]
  {
    var misread := Msg(m.typ, m.session, Image(next)[..CLOSE_SIZE]);
    MagicFirst(next);
    HeaderTakesNext(m, next, cap);
    NothingHeard(cap);
    hide Image, DeframeAll, ImageAll, Receivable;
    var after := Part(m, HDR_SIZE) + Part(next, CLOSE_SIZE);
    assert after == Image(misread) == Image(misread) + [];
    SentFirst(ms, after, cap);
    FirstReceived(misread, [], cap);
    assert [misread] + [] == [misread];
  }

  lemma {:induction false} NothingHeard(cap: nat)
    ensures DeframeAll([], cap) == []
  {
  }

  /** If only failures follow a failed CLOSE, the peer may hear a CLOSE that was never sent. */
  lemma {:induction false} LaterFailureIsMisread(es: seq<Event>, fd: int, i: nat, j: nat, cap: nat) returns (cut: nat -> nat)
    requires Hearable(es, fd, cap) && i < j < |es| && Fails(es[i], fd) && Clean(es[..i], fd)
    requires es[i].msg.typ == MSG_SOCKS_STREAM_CLOSE && |es[i].msg.payload| == CLOSE_SIZE
    requires Fails(es[j], fd) && forall k | i < k < |es| :: !(es[k].Sent? && es[k].fd == fd)
    ensures DeframeAll(Octets(es, fd, cut), cap) != SentOn(es, fd)
  {
    hide Octets, SentOn, Image, DeframeAll, ImageAll, Part;
    cut := k => if k == i then HDR_SIZE else if k == j then CLOSE_SIZE else 0;
    assert Attempts(es[i], fd) && CLOSE_SIZE <= cap;
    AttemptsFit(es, fd, cap);
    hide Hearable;
    OctetsAround(es, fd, i, j, cut, cap);
    SilentStretch(es, j + 1, |es|, fd, cut, cap);
    assert es[..|es|] == es;
    MisreadFrom(SentOn(es[..i], fd), es[i].msg, es[j].msg, cap);
  }

  /**
   * The peer hears exactly the messages sent, wherever the failed ones were cut,
   * if and only if nothing is attempted after a failure.
   */
  lemma {:induction false} HeardExactly(es: seq<Event>, fd: int, cap: nat)
    requires Hearable(es, fd, cap) && IgnoresOnlyCloses(es, fd)
    ensures (forall cut: nat -> nat :: DeframeAll(Octets(es, fd, cut), cap) == SentOn(es, fd)) <==> StopsAtFailure(es, fd)
  {
    hide Octets, SentOn, DeframeAll;
    if StopsAtFailure(es, fd) {
      forall cut: nat -> nat
        ensures DeframeAll(Octets(es, fd, cut), cap) == SentOn(es, fd)
      {
        StoppedIsHeard(es, fd, cut, cap);
      }
    } else {
      var n, k :| 0 <= n < k < |es| && Fails(es[n], fd) && Attempts(es[k], fd);
      var i := FirstFailure(es, fd, n);
      var cut := SomethingFollows(es, fd, i, k, cap);
    }
  }

  lemma {:induction false} SomethingFollows(es: seq<Event>, fd: int, i: nat, k: nat, cap: nat) returns (cut: nat -> nat)
    requires Hearable(es, fd, cap) && IgnoresOnlyCloses(es, fd)
    requires i < k < |es| && Fails(es[i], fd) && Clean(es[..i], fd) && Attempts(es[k], fd)
    ensures DeframeAll(Octets(es, fd, cut), cap) != SentOn(es, fd)
  {
    hide Octets, SentOn, DeframeAll, Hearable;
    if n :| i < n < |es| && es[n].Sent? && es[n].fd == fd {
      var j := FirstSent(es, fd, i, n);
      cut := LaterSentIsLost(es, fd, i, j, cap);
    } else {
      cut := LaterFailureIsMisread(es, fd, i, k, cap);
    }
  }

  lemma {:induction false} FirstSent(es: seq<Event>, fd: int, i: nat, n: nat) returns (j: nat)
    requires i < n < |es| && es[n].Sent? && es[n].fd == fd
    ensures i < j <= n && es[j].Sent? && es[j].fd == fd && forall k | i < k < j :: !(es[k].Sent? && es[k].fd == fd)
  {
    j := i + 1;
    while !(es[j].Sent? && es[j].fd == fd)
      invariant i < j <= n && forall k | i < k < j :: !(es[k].Sent? && es[k].fd == fd)
      decreases n - j
    {
      j := j + 1;
    }
  }
}
