/** The 16-octet message header, the length limits, and what a byte stream means as messages. */
module Frame {
  import opened Bytes

  const MAGIC: u32 := 0x4e544150
  const VERSION: byte := 1
  const HDR_SIZE := 16

  const MSG_HELLO: byte := 0x01
  const MSG_AUTH_NODE: byte := 0x02
  const MSG_AUTH_OK: byte := 0x04
  const MSG_AUTH_FAIL: byte := 0x05
  const MSG_CONFIG_PUSH: byte := 0x06
  const MSG_TAP_FRAME: byte := 0x07
  const MSG_PING: byte := 0x08
  const MSG_PONG: byte := 0x09
  const MSG_SOCKS_STREAM_OPEN: byte := 0x0c
  const MSG_SOCKS_STREAM_DATA: byte := 0x0d
  const MSG_SOCKS_STREAM_CLOSE: byte := 0x0e

  const PAYLOAD_MAX_CONTROL := 64 * 1024
  const PAYLOAD_MAX_SOCKS := 16 * 1024
  const DEFAULT_MTU := 1400
  const MIN_MTU := 576
  const MAX_MTU := 1500
  const TAP_PAYLOAD_EXTRA := 32

  datatype Hdr = Hdr(magic: u32, version: byte, typ: byte, flags: u16, session: u32, length: u32)
  datatype Status = Good | BadMagic | BadVersion | BadType

  predicate TypeIsValid(typ: byte) {
    MSG_HELLO <= typ <= MSG_SOCKS_STREAM_CLOSE
  }

  function Check(h: Hdr): Status {
    if h.magic != MAGIC then BadMagic
    else if h.version != VERSION then BadVersion
    else if !TypeIsValid(h.typ) then BadType
    else Good
  }

  /** The largest payload a receiver takes for a type; a nonsensical mtu counts as the default one. */
  predicate LengthAllowed(typ: byte, length: nat, mtu: nat) {
    && TypeIsValid(typ)
    && var m := if MIN_MTU <= mtu <= MAX_MTU then mtu else DEFAULT_MTU;
       length <= if typ == MSG_TAP_FRAME then m + TAP_PAYLOAD_EXTRA
                 else if MSG_SOCKS_STREAM_OPEN <= typ <= MSG_SOCKS_STREAM_CLOSE then PAYLOAD_MAX_SOCKS
                 else PAYLOAD_MAX_CONTROL
  }

  function HdrLayout(h: Hdr): (b: seq<byte>)
    ensures |b| == HDR_SIZE
  {
    Be32(h.magic) + ([h.version] + ([h.typ] + (Be16(h.flags) + (Be32(h.session) + Be32(h.length)))))
  }

  function HdrOf(b: seq<byte>): Hdr
    requires |b| == HDR_SIZE
  {
    Hdr(Get32(b[..4]), b[4], b[5], Get16(b[6..8]), Get32(b[8..12]), Get32(b[12..]))
  }

  /** Sixteen octets carry the fields h exactly when they are the layout of h. */
  lemma {:induction false} HdrExact(b: seq<byte>, h: Hdr)
    requires |b| == HDR_SIZE
    ensures HdrOf(b) == h <==> b == HdrLayout(h)
  {
    Be32Exact(b[..4], h.magic);
    Be16Exact(b[6..8], h.flags);
    Be32Exact(b[8..12], h.session);
    Be32Exact(b[12..], h.length);
    if HdrOf(b) == h {
      assert b == b[..4] + ([b[4]] + ([b[5]] + (b[6..8] + (b[8..12] + b[12..]))));
    }
    if b == HdrLayout(h) {
      HdrParts(h);
    }
  }

  lemma {:induction false} HdrParts(h: Hdr)
    ensures var b := HdrLayout(h);
      && b[..4] == Be32(h.magic) && b[4] == h.version && b[5] == h.typ && b[6..8] == Be16(h.flags)
      && b[8..12] == Be32(h.session) && b[12..] == Be32(h.length)
  {
  }

  // -------------------------------------------------------------------------
  // Messages in a byte stream
  // -------------------------------------------------------------------------

  datatype Msg = Msg(typ: byte, session: u32, payload: seq<byte>)

  /** A message as sent: the sender writes no header flags. */
  function Image(m: Msg): seq<byte>
    requires |m.payload| < 0x1_0000_0000
  {
    HdrLayout(Hdr(MAGIC, VERSION, m.typ, 0, m.session, |m.payload|)) + m.payload
  }

  /** What a receiver with room for cap octets of payload makes of the bytes at hand. */
  datatype Incoming = NeedMore | Refused | Got(msg: Msg)

  function Deframe(s: seq<byte>, cap: nat): Incoming {
    if |s| < HDR_SIZE then NeedMore
    else
      var h := HdrOf(s[..HDR_SIZE]);
      if Check(h) != Good || !LengthAllowed(h.typ, h.length, DEFAULT_MTU) || h.length > cap then Refused
      else if |s| < HDR_SIZE + h.length then NeedMore
      else Got(Msg(h.typ, h.session, s[HDR_SIZE..HDR_SIZE + h.length]))
  }

  predicate Receivable(m: Msg, cap: nat) {
    LengthAllowed(m.typ, |m.payload|, DEFAULT_MTU) && |m.payload| <= cap
  }

  /** A complete image at the front of a stream is received as the message it is the image of. */
  lemma {:induction false} ImageReceived(m: Msg, rest: seq<byte>, cap: nat)
    requires Receivable(m, cap)
    ensures Deframe(Image(m) + rest, cap) == Got(m)
  {
    var h := Hdr(MAGIC, VERSION, m.typ, 0, m.session, |m.payload|);
    var s := Image(m) + rest;
    assert s[..HDR_SIZE] == HdrLayout(h);
    HdrExact(HdrLayout(h), h);
    assert s[HDR_SIZE..HDR_SIZE + |m.payload|] == m.payload;
  }

  /** No proper part of an image makes a receiver return or refuse anything. */
  lemma {:induction false} PartialImageWaits(m: Msg, k: nat, cap: nat)
    requires Receivable(m, cap) && k < |Image(m)|
    ensures Deframe(Image(m)[..k], cap) == NeedMore && DeframeAll(Image(m)[..k], cap) == []
  {
    if k >= HDR_SIZE {
      var h := Hdr(MAGIC, VERSION, m.typ, 0, m.session, |m.payload|);
      assert Image(m)[..k][..HDR_SIZE] == HdrLayout(h);
      HdrExact(HdrLayout(h), h);
    }
  }

  predicate AllReceivable(ms: seq<Msg>, cap: nat) {
    forall i | 0 <= i < |ms| :: Receivable(ms[i], cap)
  }

  function ImageAll(ms: seq<Msg>): seq<byte>
    requires forall i | 0 <= i < |ms| :: |ms[i].payload| < 0x1_0000_0000
  {
    if ms == [] then [] else Image(ms[0]) + ImageAll(ms[1..])
  }

  /** The messages that repeated receiving takes from a stream, up to the first refusal or the end. */
  function DeframeAll(s: seq<byte>, cap: nat): seq<Msg>
    decreases |s|
  {
    match Deframe(s, cap)
    case Got(m) => [m] + DeframeAll(s[HDR_SIZE + |m.payload|..], cap)
    case _ => []
  }

  /** How many octets that takes: all of an incomplete end, but only the header of a refused message. */
  function Taken(s: seq<byte>, cap: nat): (n: nat)
    ensures n <= |s|
    decreases |s|
  {
    match Deframe(s, cap)
    case Got(m) => HDR_SIZE + |m.payload| + Taken(s[HDR_SIZE + |m.payload|..], cap)
    case Refused => HDR_SIZE
    case NeedMore => |s|
  }

  lemma {:induction false} ImageAllCons(ms: seq<Msg>, k: nat)
    requires forall i | 0 <= i < |ms| :: |ms[i].payload| < 0x1_0000_0000
    requires 0 < k <= |ms|
    ensures ImageAll(ms[..k]) == Image(ms[0]) + ImageAll(ms[1..][..k - 1])
  {
    assert ms[..k][1..] == ms[1..][..k - 1];
  }

  lemma {:induction false} FirstReceived(m: Msg, rest: seq<byte>, cap: nat)
    requires Receivable(m, cap)
    ensures DeframeAll(Image(m) + rest, cap) == [m] + DeframeAll(rest, cap)
  {
    ImageReceived(m, rest, cap);
    assert (Image(m) + rest)[|Image(m)|..] == rest;
  }

  /** How many of the images of ms lie completely within the first n octets. */
  function Complete(ms: seq<Msg>, n: nat): (k: nat)
    requires forall i | 0 <= i < |ms| :: |ms[i].payload| < 0x1_0000_0000
    ensures k <= |ms|
  {
    if ms == [] || n < |Image(ms[0])| then 0 else 1 + Complete(ms[1..], n - |Image(ms[0])|)
  }

  lemma {:induction false} CompleteMeaning(ms: seq<Msg>, n: nat)
    requires forall i | 0 <= i < |ms| :: |ms[i].payload| < 0x1_0000_0000
    ensures var k := Complete(ms, n);
      |ImageAll(ms[..k])| <= n && (k < |ms| ==> n < |ImageAll(ms[..k + 1])|)
  {
    hide Image;
    if ms != [] {
      var k := Complete(ms, n);
      if n >= |Image(ms[0])| {
        CompleteMeaning(ms[1..], n - |Image(ms[0])|);
        ImageAllCons(ms, k);
      }
      if k < |ms| {
        ImageAllCons(ms, k + 1);
      }
    }
  }

  lemma {:induction false} TakeCons<T>(s: seq<T>, k: nat)
    requires k < |s|
    ensures s[..1 + k] == [s[0]] + s[1..][..k]
  {
  }

  lemma {:induction false} ImageAllSplit(ms: seq<Msg>, n: nat)
    requires forall i | 0 <= i < |ms| :: |ms[i].payload| < 0x1_0000_0000
    requires ms != [] && n <= |ImageAll(ms)|
    ensures n < |Image(ms[0])| ==> ImageAll(ms)[..n] == Image(ms[0])[..n]
    ensures n >= |Image(ms[0])| ==>
      && n - |Image(ms[0])| <= |ImageAll(ms[1..])|
      && ImageAll(ms)[..n] == Image(ms[0]) + ImageAll(ms[1..])[..n - |Image(ms[0])|]
  {
  }

  lemma {:induction false} CompleteStep(ms: seq<Msg>, n: nat)
    requires forall i | 0 <= i < |ms| :: |ms[i].payload| < 0x1_0000_0000
    requires ms != []
    ensures n < |Image(ms[0])| ==> ms[..Complete(ms, n)] == []
    ensures n >= |Image(ms[0])| ==>
      ms[..Complete(ms, n)] == [ms[0]] + ms[1..][..Complete(ms[1..], n - |Image(ms[0])|)]
  {
    hide Image;
    if n >= |Image(ms[0])| {
      TakeCons(ms, Complete(ms[1..], n - |Image(ms[0])|));
    }
  }

  /**
   * Fragmentation never matters. Whatever part of the sent stream has arrived,
   * in whatever pieces, the receiver has exactly those messages whose images
   * are complete, in order.
   */
  lemma {:induction false} ArrivedPartIsPrefix(ms: seq<Msg>, n: nat, cap: nat)
    requires AllReceivable(ms, cap)
    requires n <= |ImageAll(ms)|
    ensures DeframeAll(ImageAll(ms)[..n], cap) == ms[..Complete(ms, n)]
  {
    if ms == [] {
      assert ImageAll(ms)[..n] == [];
    } else {
      hide Image, Deframe, DeframeAll, ImageAll, Complete;
      ImageAllSplit(ms, n);
      CompleteStep(ms, n);
      hide Receivable;
      if n < |Image(ms[0])| {
        PartialImageWaits(ms[0], n, cap);
      } else {
        RestReceivable(ms, cap);
        hide AllReceivable;
        var k := n - |Image(ms[0])|;
        ArrivedPartIsPrefix(ms[1..], k, cap);
        FirstReceived(ms[0], ImageAll(ms[1..])[..k], cap);
      }
    }
  }

  lemma {:induction false} RestReceivable(ms: seq<Msg>, cap: nat)
    requires AllReceivable(ms, cap) && ms != []
    ensures AllReceivable(ms[1..], cap) && Receivable(ms[0], cap)
    ensures forall i | 0 <= i < |ms[1..]| :: |ms[1..][i].payload| < 0x1_0000_0000
  {
  }

  /** Once everything sent has arrived, the receiver has all messages and nothing else. */
  lemma {:induction false} AllSentIsReceived(ms: seq<Msg>, cap: nat)
    requires AllReceivable(ms, cap)
    ensures DeframeAll(ImageAll(ms), cap) == ms
  {
    hide Image, Deframe, DeframeAll, ImageAll, Complete;
    var s := ImageAll(ms);
    var k := Complete(ms, |s|);
    ArrivedPartIsPrefix(ms, |s|, cap);
    CompleteMeaning(ms, |s|);
    if k < |ms| {
      ImageAllGrows(ms, k + 1);
    }
    assert s[..|s|] == s && ms[..k] == ms;
  }

  /**
   * After complete messages and a beginning of one that could not be sent, the
   * peer has received the complete ones and nothing of the other.
   */
  lemma {:induction false} CutOffIsUnheard(ms: seq<Msg>, m: Msg, k: nat, cap: nat)
    requires AllReceivable(ms, cap) && Receivable(m, cap) && k < |Image(m)|
    ensures DeframeAll(ImageAll(ms) + Image(m)[..k], cap) == ms
  {
    hide Deframe, DeframeAll, Image;
    var part := Image(m)[..k];
    if ms == [] {
      PartialImageWaits(m, k, cap);
      assert ImageAll(ms) + part == part;
    } else {
      CutOffIsUnheard(ms[1..], m, k, cap);
      FirstReceived(ms[0], ImageAll(ms[1..]) + part, cap);
      assert ImageAll(ms) + part == Image(ms[0]) + (ImageAll(ms[1..]) + part);
    }
  }

  lemma {:induction false} FirstTaken(m: Msg, rest: seq<byte>, cap: nat)
    requires Receivable(m, cap)
    ensures Taken(Image(m) + rest, cap) == |Image(m)| + Taken(rest, cap)
  {
    ImageReceived(m, rest, cap);
    assert (Image(m) + rest)[|Image(m)|..] == rest;
  }

  /** And has taken every octet. */
  lemma {:induction false} AllSentIsTaken(ms: seq<Msg>, cap: nat)
    requires AllReceivable(ms, cap)
    ensures Taken(ImageAll(ms), cap) == |ImageAll(ms)|
  {
    hide Taken, Image;
    if ms == [] {
      NothingTaken(cap);
    } else {
      AllSentIsTaken(ms[1..], cap);
      FirstTaken(ms[0], ImageAll(ms[1..]), cap);
    }
  }

  lemma {:induction false} CutOffIsTaken(ms: seq<Msg>, m: Msg, k: nat, cap: nat)
    requires AllReceivable(ms, cap) && Receivable(m, cap) && k < |Image(m)|
    ensures var s := ImageAll(ms) + Image(m)[..k];
      Taken(s, cap) == |s|
  {
    hide Deframe, Image;
    var part := Image(m)[..k];
    if ms == [] {
      PartialImageWaits(m, k, cap);
      assert ImageAll(ms) + part == part;
    } else {
      CutOffIsTaken(ms[1..], m, k, cap);
      FirstTaken(ms[0], ImageAll(ms[1..]) + part, cap);
      assert ImageAll(ms) + part == Image(ms[0]) + (ImageAll(ms[1..]) + part);
    }
  }

  lemma {:induction false} ImageAllSnoc(ms: seq<Msg>, n: nat)
    requires forall i | 0 <= i < |ms| :: |ms[i].payload| < 0x1_0000_0000
    requires n < |ms|
    ensures ImageAll(ms[..n + 1]) == ImageAll(ms[..n]) + Image(ms[n])
  {
    hide Image;
    if n > 0 {
      ImageAllCons(ms, n);
      ImageAllCons(ms, n + 1);
      ImageAllSnoc(ms[1..], n - 1);
    } else {
      ImageAllCons(ms, 1);
    }
  }

  lemma {:induction false} NothingTaken(cap: nat)
    ensures Taken([], cap) == 0
  {
  }

  lemma {:induction false} ImageAllGrows(ms: seq<Msg>, k: nat)
    requires forall i | 0 <= i < |ms| :: |ms[i].payload| < 0x1_0000_0000
    requires k <= |ms|
    ensures |ImageAll(ms[..k])| <= |ImageAll(ms)|
  {
    if k > 0 {
      ImageAllCons(ms, k);
      ImageAllGrows(ms[1..], k - 1);
    }
  }

  lemma {:induction false} DeframeExtends(s: seq<byte>, more: seq<byte>, cap: nat)
    requires Deframe(s, cap).Got?
    ensures Deframe(s + more, cap) == Deframe(s, cap)
    ensures HDR_SIZE + |Deframe(s, cap).msg.payload| <= |s|
  {
    var n := HDR_SIZE + |Deframe(s, cap).msg.payload|;
    assert (s + more)[..HDR_SIZE] == s[..HDR_SIZE];
    assert (s + more)[HDR_SIZE..n] == s[HDR_SIZE..n];
  }

  /** Bytes that arrive later never change the messages already received. */
  lemma {:induction false} ReceivingIsMonotone(s: seq<byte>, more: seq<byte>, cap: nat)
    ensures DeframeAll(s, cap) <= DeframeAll(s + more, cap)
    decreases |s|
  {
    if Deframe(s, cap).Got? {
      DeframeExtends(s, more, cap);
      hide Deframe;
      var n := HDR_SIZE + |Deframe(s, cap).msg.payload|;
      assert (s + more)[n..] == s[n..] + more;
      ReceivingIsMonotone(s[n..], more, cap);
    }
  }
}
