/** The loops that push messages through sockets which take and give bytes in arbitrary pieces. */
module Net {
  import opened Bytes
  import opened Frame
  import opened OctetMeaning

  const CHUNK := 32768

  /** One answer of send or recv. */
  datatype Io = Moved(n: nat) | Zero | WouldBlock | Failed

  /**
   * A stream socket. The peer's bytes and every answer of the system are
   * arbitrary; a system that keeps answering "not now" does so only finitely
   * often (stalls). broken records that some call gave up on the connection.
   */
  class Socket {
    const inbound: seq<byte>
    var taken: nat
    var outbound: seq<byte>
    var stalls: nat
    var broken: bool

    ghost predicate Valid()
      reads this
    {
      taken <= |inbound|
    }

    constructor (inbound: seq<byte>, stalls: nat)
      ensures Valid() && this.inbound == inbound && this.stalls == stalls
      ensures taken == 0 && outbound == [] && !broken
    {
      this.inbound := inbound;
      this.stalls := stalls;
      taken, outbound, broken := 0, [], false;
    }

    /** Takes a non-empty beginning of the chunk, or nothing. */
    method Send(chunk: seq<byte>) returns (r: Io)
      requires Valid() && chunk != []
      modifies this`outbound, this`stalls
      ensures match r
        case Moved(n) => 0 < n <= |chunk| && outbound == old(outbound) + chunk[..n] && stalls == old(stalls)
        case Failed => outbound == old(outbound) && stalls == old(stalls)
        case _ => outbound == old(outbound) && stalls < old(stalls)
    {
      var choice: int := *;
      if choice == 0 {
        return Failed;
      } else if stalls > 0 && choice == 1 {
        stalls := stalls - 1;
        return Zero;
      } else if stalls > 0 && choice == 2 {
        stalls := stalls - 1;
        return WouldBlock;
      }
      var n: nat :| 0 < n <= |chunk|;
      outbound := outbound + chunk[..n];
      return Moved(n);
    }

    /** Gives a non-empty part of what is still to come, end of file only at the end, or nothing. */
    method Recv(want: nat) returns (r: Io, bytes: seq<byte>)
      requires Valid() && want > 0
      modifies this`taken, this`stalls
      ensures Valid()
      ensures match r
        case Moved(n) =>
          0 < n <= want && taken == old(taken) + n && bytes == inbound[old(taken)..taken] && stalls == old(stalls)
        case Zero => taken == old(taken) == |inbound|
        case WouldBlock => taken == old(taken) && stalls < old(stalls)
        case Failed => taken == old(taken)
    {
      bytes := [];
      var choice: int := *;
      if choice == 0 {
        return Failed, [];
      } else if stalls > 0 && choice == 1 {
        stalls := stalls - 1;
        return WouldBlock, [];
      } else if taken == |inbound| {
        return Zero, [];
      }
      var n: nat :| 0 < n <= want && taken + n <= |inbound|;
      bytes := inbound[taken..taken + n];
      taken := taken + n;
      return Moved(n), bytes;
    }

    /** Waits until the socket is ready; gives up on a timeout or an error. */
    method WaitReady() returns (ok: bool)
    {
      ok := *;
    }
  }

  /** All of data goes out in order, or a proper beginning of it and the call fails. */
  ghost predicate Pushed(before: seq<byte>, after: seq<byte>, data: seq<byte>, ok: bool) {
    before <= after <= before + data && (ok <==> after == before + data)
  }

  method SendAll(sock: Socket, data: seq<byte>) returns (ok: bool)
    requires sock.Valid()
    modifies sock`outbound, sock`stalls
    ensures Pushed(old(sock.outbound), sock.outbound, data, ok)
  {
    var p := 0;
    while p < |data|
      invariant 0 <= p <= |data|
      invariant sock.outbound == old(sock.outbound) + data[..p]
    {
      var chunk := if |data| - p > CHUNK then CHUNK else |data| - p;
      var r := sock.Send(data[p..p + chunk]);
      if !r.Moved? {
        return false;
      }
      assert data[..p] + data[p..p + chunk][..r.n] == data[..p + r.n];
      p := p + r.n;
    }
    return true;
  }

  method SendAllTimeout(sock: Socket, data: seq<byte>) returns (ok: bool)
    requires sock.Valid()
    modifies sock`outbound, sock`stalls
    ensures Pushed(old(sock.outbound), sock.outbound, data, ok)
  {
    var p := 0;
    while p < |data|
      invariant 0 <= p <= |data|
      invariant sock.outbound == old(sock.outbound) + data[..p]
      decreases |data| - p, sock.stalls
    {
      var chunk := if |data| - p > CHUNK then CHUNK else |data| - p;
      var r := sock.Send(data[p..p + chunk]);
      match r {
        case Moved(n) =>
          assert data[..p] + data[p..p + chunk][..n] == data[..p + n];
          p := p + n;
        case Failed =>
          return false;
        case _ =>
          var ready := sock.WaitReady();
          if !ready {
            return false;
          }
      }
    }
    return true;
  }

  /** Fills data[..len] with the next len bytes; fails only if the connection breaks or ends before. */
  method RecvAll(sock: Socket, data: array<byte>, len: nat) returns (ok: bool)
    requires sock.Valid() && len <= data.Length
    modifies sock`taken, sock`stalls, sock`broken, data
    ensures sock.Valid() && old(sock.taken) <= sock.taken <= old(sock.taken) + len
    ensures old(sock.broken) ==> sock.broken
    ensures ok ==> sock.taken == old(sock.taken) + len && sock.broken == old(sock.broken)
    ensures ok ==> data[..len] == sock.inbound[old(sock.taken)..sock.taken]
    ensures !ok && !sock.broken ==> sock.taken == |sock.inbound| < old(sock.taken) + len
    ensures data[len..] == old(data[len..])
  {
    ghost var coming := sock.inbound[sock.taken..];
    var p := 0;
    while p < len
      invariant 0 <= p <= len
      invariant sock.Valid() && sock.taken == old(sock.taken) + p && sock.broken == old(sock.broken)
      invariant forall i | 0 <= i < p :: data[i] == coming[i]
      invariant forall i | len <= i < data.Length :: data[i] == old(data[i])
      decreases len - p, sock.stalls
    {
      var chunk := if len - p > CHUNK then CHUNK else len - p;
      var r, bytes := sock.Recv(chunk);
      match r {
        case Moved(n) =>
          assert bytes == coming[p..p + n];
          forall i | 0 <= i < n {
            data[p + i] := bytes[i];
          }
          assert data[p..p + n] == bytes;
          assert forall i | p <= i < p + n :: data[i] == data[p..p + n][i - p] == coming[p..p + n][i - p];
          p := p + n;
        case Zero =>
          return false;
        case WouldBlock =>
          var ready := sock.WaitReady();
          if !ready {
            sock.broken := true;
            return false;
          }
        case Failed =>
          sock.broken := true;
          return false;
      }
    }
    return true;
  }

  // -------------------------------------------------------------------------
  // Headers and messages
  // -------------------------------------------------------------------------

  /** Writes the layout of a good header; refuses a bad one without touching out. */
  method HdrEncode(out: array<byte>, h: Hdr) returns (status: Status)
    requires out.Length == HDR_SIZE
    modifies out
    ensures status == Check(h)
    ensures status == if h.magic != 0x4e544150 then BadMagic else if h.version != 1 then BadVersion
                      else if !(1 <= h.typ <= 14) then BadType else Good
    ensures out[..] == if status == Good then HdrLayout(h) else old(out[..])
  {
    if h.magic != MAGIC {
      return BadMagic;
    }
    if h.version != VERSION {
      return BadVersion;
    }
    if !TypeIsValid(h.typ) {
      return BadType;
    }
    var magic, flags, session, length := Be32(h.magic), Be16(h.flags), Be32(h.session), Be32(h.length);
    assert |magic| == |session| == |length| == 4 && |flags| == 2;
    ghost var before := out[..];
    HdrPieces(h);
    hide Be32, Be16, HdrLayout;
    PutAt(out, 0, magic, [], before);
    PutAt(out, 4, [h.version], [] + magic, before[4..]);
    PutAt(out, 5, [h.typ], [] + magic + [h.version], before[4..][1..]);
    PutAt(out, 6, flags, [] + magic + [h.version] + [h.typ], before[4..][1..][1..]);
    PutAt(out, 8, session, [] + magic + [h.version] + [h.typ] + flags, before[4..][1..][1..][2..]);
    PutAt(out, 12, length, [] + magic + [h.version] + [h.typ] + flags + session, before[4..][1..][1..][2..][4..]);
    return Good;
  }

  lemma {:induction false} HdrPieces(h: Hdr)
    ensures [] + Be32(h.magic) + [h.version] + [h.typ] + Be16(h.flags) + Be32(h.session) + Be32(h.length) == HdrLayout(h)
  {
    var magic, flags, session, length := Be32(h.magic), Be16(h.flags), Be32(h.session), Be32(h.length);
    assert [] + magic + [h.version] + [h.typ] + flags + session + length
      == magic + ([h.version] + ([h.typ] + (flags + (session + length))));
  }

  /** Every field is read, good or bad; the first offending one decides the status. */
  method HdrDecode(raw: seq<byte>) returns (h: Hdr, status: Status)
    requires |raw| == HDR_SIZE
    ensures HdrLayout(h) == raw && status == Check(h)
    ensures h.version == raw[4] && h.typ == raw[5] && h.flags == U16At(raw, 6)
    ensures h.session == U32At(raw, 8) && h.length == U32At(raw, 12)
    ensures status == Good <==> raw[..4] == [0x4e, 0x54, 0x41, 0x50] && raw[4] == 1 && 1 <= raw[5] <= 14
    ensures status == BadMagic <==> raw[..4] != [0x4e, 0x54, 0x41, 0x50]
    ensures status == BadVersion <==> raw[..4] == [0x4e, 0x54, 0x41, 0x50] && raw[4] != 1
  {
    h := Hdr(Get32(raw[..4]), raw[4], raw[5], Get16(raw[6..8]), Get32(raw[8..12]), Get32(raw[12..]));
    HdrExact(raw, h);
    status := if h.magic != MAGIC then BadMagic
      else if h.version != VERSION then BadVersion
      else if !TypeIsValid(h.typ) then BadType
      else Good;
    assert raw[..16] == raw;
    HdrOfOctets(raw);
    CheckOctets(raw);
    hide HdrOf, HdrLayout, Check, U16At, U32At;
    GoodBegins(raw);
  }

  lemma {:induction false} GoodBegins(raw: seq<byte>)
    requires |raw| == 16
    ensures GoodHeader(raw) <==> raw[..4] == [0x4e, 0x54, 0x41, 0x50] && raw[4] == 1 && 1 <= raw[5] <= 14
  {
    var t := raw[..4];
    assert t == [t[0], t[1], t[2], t[3]];
  }

  /** A valid type goes out as the image of the message, complete or cut short by a failure; an invalid one not at all. */
  method SendMsg(sock: Socket, m: Msg) returns (ok: bool)
    requires sock.Valid() && |m.payload| < 0x1_0000_0000
    modifies sock`outbound, sock`stalls
    ensures TypeIsValid(m.typ) ==> Pushed(old(sock.outbound), sock.outbound, Image(m), ok)
    ensures !TypeIsValid(m.typ) ==> !ok && sock.outbound == old(sock.outbound)
  {
    var raw := new byte[HDR_SIZE];
    var status := HdrEncode(raw, Hdr(MAGIC, VERSION, m.typ, 0, m.session, |m.payload|));
    if status != Good {
      return false;
    }
    ok := SendAll(sock, raw[..]);
    if !ok {
      return;
    }
    if |m.payload| > 0 {
      ok := SendAll(sock, m.payload);
    }
    PushedTwice(old(sock.outbound), raw[..], m.payload, sock.outbound, ok);
  }

  lemma {:induction false} PushedTwice(before: seq<byte>, a: seq<byte>, b: seq<byte>, after: seq<byte>, ok: bool)
    requires Pushed(before + a, after, b, ok)
    ensures Pushed(before, after, a + b, ok)
  {
    assert before + a + b == before + (a + b);
    assert before <= before + a;
  }

  method SendMsgTimeout(sock: Socket, m: Msg) returns (ok: bool)
    requires sock.Valid() && |m.payload| < 0x1_0000_0000
    modifies sock`outbound, sock`stalls
    ensures TypeIsValid(m.typ) ==> Pushed(old(sock.outbound), sock.outbound, Image(m), ok)
    ensures !TypeIsValid(m.typ) ==> !ok && sock.outbound == old(sock.outbound)
  {
    var raw := new byte[HDR_SIZE];
    var status := HdrEncode(raw, Hdr(MAGIC, VERSION, m.typ, 0, m.session, |m.payload|));
    if status != Good {
      return false;
    }
    ok := SendAllTimeout(sock, raw[..]);
    if !ok {
      return;
    }
    if |m.payload| > 0 {
      ok := SendAllTimeout(sock, m.payload);
    }
    PushedTwice(old(sock.outbound), raw[..], m.payload, sock.outbound, ok);
  }

  /**
   * Receives what the stream means at this point, however it is cut into
   * pieces: success is exactly a complete acceptable message, of which not one
   * byte more is consumed. Everything else fails, on an unbroken connection
   * only because the stream ends too early or the header is refused.
   */
  method RecvMsg(sock: Socket, payload: array<byte>) returns (ok: bool, h: Hdr, n: nat)
    requires sock.Valid()
    modifies sock`taken, sock`stalls, sock`broken, payload
    ensures sock.Valid() && old(sock.taken) <= sock.taken && (old(sock.broken) ==> sock.broken)
    ensures ok ==> n <= payload.Length && sock.taken == old(sock.taken) + HDR_SIZE + n
    ensures ok ==> Deframe(sock.inbound[old(sock.taken)..], payload.Length) == Got(Msg(h.typ, h.session, payload[..n]))
    ensures !ok && !sock.broken ==>
      var rest := sock.inbound[old(sock.taken)..];
      !Deframe(rest, payload.Length).Got? && sock.taken == old(sock.taken) + Taken(rest, payload.Length)
  {
    hide Deframe, Taken, HdrLayout, Check, LengthAllowed;
    ghost var rest := sock.inbound[sock.taken..];
    n := 0;
    var status;
    ok, h, status := RecvHdr(sock);
    if !ok {
      if |rest| < HDR_SIZE {
        HeaderMissing(rest, payload.Length);
      }
      return;
    }
    HeaderSeen(rest, h, payload.Length);
    if status != Good || !LengthAllowed(h.typ, h.length, DEFAULT_MTU) || h.length > payload.Length {
      return false, h, n;
    }
    n := h.length;
    if n > 0 {
      ok := RecvAll(sock, payload, n);
      if !ok {
        return;
      }
    }
    Behind(sock.inbound, old(sock.taken), HDR_SIZE, n);
  }

  lemma {:induction false} Behind(s: seq<byte>, at: nat, k: nat, n: nat)
    requires at + k + n <= |s|
    ensures s[at..][k..k + n] == s[at + k..at + k + n]
  {
  }

  /** Reads a header, whatever it says. */
  method RecvHdr(sock: Socket) returns (ok: bool, h: Hdr, status: Status)
    requires sock.Valid()
    modifies sock`taken, sock`stalls, sock`broken
    ensures sock.Valid() && old(sock.taken) <= sock.taken <= old(sock.taken) + HDR_SIZE
    ensures old(sock.broken) ==> sock.broken
    ensures ok ==> sock.taken == old(sock.taken) + HDR_SIZE && sock.broken == old(sock.broken)
    ensures ok ==> HdrLayout(h) == sock.inbound[old(sock.taken)..][..HDR_SIZE] && status == Check(h)
    ensures !ok && !sock.broken ==> sock.taken == |sock.inbound| < old(sock.taken) + HDR_SIZE
  {
    hide HdrLayout, Check;
    ghost var rest := sock.inbound[sock.taken..];
    var raw := new byte[HDR_SIZE];
    h, status := Hdr(0, 0, 0, 0, 0, 0), BadMagic;
    ok := RecvAll(sock, raw, HDR_SIZE);
    if ok {
      assert raw[..] == raw[..HDR_SIZE] == rest[..HDR_SIZE];
      h, status := HdrDecode(raw[..]);
    }
  }

  lemma {:induction false} HeaderMissing(rest: seq<byte>, cap: nat)
    requires |rest| < HDR_SIZE
    ensures Deframe(rest, cap) == NeedMore && Taken(rest, cap) == |rest|
  {
  }

  /** What the header at the front of a stream decides. */
  lemma {:induction false} HeaderSeen(rest: seq<byte>, h: Hdr, cap: nat)
    requires |rest| >= HDR_SIZE && HdrLayout(h) == rest[..HDR_SIZE]
    ensures if Check(h) != Good || !LengthAllowed(h.typ, h.length, DEFAULT_MTU) || h.length > cap then
              Deframe(rest, cap) == Refused && Taken(rest, cap) == HDR_SIZE
            else if |rest| < HDR_SIZE + h.length then
              Deframe(rest, cap) == NeedMore && Taken(rest, cap) == |rest|
            else
              Deframe(rest, cap) == Got(Msg(h.typ, h.session, rest[HDR_SIZE..HDR_SIZE + h.length]))
  {
    HdrExact(rest[..HDR_SIZE], h);
  }

  /**
   * Receiving again and again until it fails, as the sessions do: on an
   * unbroken connection this yields exactly the messages that the stream means
   * and takes exactly their octets, with those of a rest that is no message.
   * So a stream of images is received as the messages and taken to its end.
   */
  method RecvWhilePossible(sock: Socket, payload: array<byte>) returns (received: seq<Msg>)
    requires sock.Valid()
    modifies sock`taken, sock`stalls, sock`broken, payload
    ensures received <= DeframeAll(sock.inbound[old(sock.taken)..], payload.Length)
    ensures !sock.broken ==>
      var rest := sock.inbound[old(sock.taken)..];
      received == DeframeAll(rest, payload.Length) && sock.taken == old(sock.taken) + Taken(rest, payload.Length)
    ensures sock.Valid() && forall ms | AllReceivable(ms, payload.Length) && sock.inbound[old(sock.taken)..] == ImageAll(ms) ::
      received <= ms && (!sock.broken ==> received == ms && sock.taken == |sock.inbound|)
  {
    ghost var start, cap := sock.taken, payload.Length;
    received := [];
    StreamBegins(sock.inbound, start, cap);
    hide Deframe, DeframeAll, Taken, Underway, Over;
    var ok := true;
    while ok
      invariant sock.Valid()
      invariant if ok then Underway(sock.inbound, start, sock.taken, received, cap)
                else Over(sock.inbound, start, sock.taken, received, cap, sock.broken)
      decreases ok, |sock.inbound| - sock.taken
    {
      ghost var before := sock.taken;
      var h, n;
      ok, h, n := RecvMsg(sock, payload);
      if ok {
        NextReceived(sock.inbound, start, before, received, Msg(h.typ, h.session, payload[..n]), cap);
        received := received + [Msg(h.typ, h.session, payload[..n])];
      } else {
        NothingReceived(sock.inbound, start, before, sock.taken, received, cap, sock.broken);
      }
    }
    StreamEnds(sock.inbound, start, sock.taken, received, cap, sock.broken);
  }

  /** So far the messages of the stream from start on have been received. */
  ghost predicate Underway(stream: seq<byte>, start: nat, at: nat, received: seq<Msg>, cap: nat) {
    && start <= at <= |stream|
    && DeframeAll(stream[start..], cap) == received + DeframeAll(stream[at..], cap)
    && start + Taken(stream[start..], cap) == at + Taken(stream[at..], cap)
  }

  /** All of them have, unless the connection broke. */
  ghost predicate Over(stream: seq<byte>, start: nat, at: nat, received: seq<Msg>, cap: nat, broken: bool) {
    && start <= |stream|
    && received <= DeframeAll(stream[start..], cap)
    && (!broken ==> received == DeframeAll(stream[start..], cap) && at == start + Taken(stream[start..], cap))
  }

  lemma {:induction false} StreamBegins(stream: seq<byte>, start: nat, cap: nat)
    requires start <= |stream|
    ensures Underway(stream, start, start, [], cap)
  {
  }

  lemma {:induction false} NextReceived(stream: seq<byte>, start: nat, at: nat, received: seq<Msg>, m: Msg, cap: nat)
    requires Underway(stream, start, at, received, cap) && Deframe(stream[at..], cap) == Got(m)
    ensures Underway(stream, start, at + HDR_SIZE + |m.payload|, received + [m], cap)
  {
    var rest := stream[at..];
    var n := HDR_SIZE + |m.payload|;
    DeframeExtends(rest, [], cap);
    assert rest[n..] == stream[at + n..];
    assert DeframeAll(rest, cap) == [m] + DeframeAll(rest[n..], cap) && Taken(rest, cap) == n + Taken(rest[n..], cap);
    hide DeframeAll, Taken, Deframe;
    assert received + ([m] + DeframeAll(rest[n..], cap)) == received + [m] + DeframeAll(rest[n..], cap);
  }

  lemma {:induction false} NothingReceived(
    stream: seq<byte>, start: nat, at: nat, end: nat, received: seq<Msg>, cap: nat, broken: bool)
    requires Underway(stream, start, at, received, cap)
    requires !broken ==> !Deframe(stream[at..], cap).Got? && end == at + Taken(stream[at..], cap)
    ensures Over(stream, start, end, received, cap, broken)
  {
    if !broken {
      assert DeframeAll(stream[at..], cap) == [];
    }
    hide DeframeAll, Taken, Deframe;
    assert received + [] == received;
  }

  lemma {:induction false} StreamEnds(stream: seq<byte>, start: nat, at: nat, received: seq<Msg>, cap: nat, broken: bool)
    requires Over(stream, start, at, received, cap, broken)
    ensures received <= DeframeAll(stream[start..], cap)
    ensures !broken ==> received == DeframeAll(stream[start..], cap) && at == start + Taken(stream[start..], cap)
    ensures forall ms | AllReceivable(ms, cap) && stream[start..] == ImageAll(ms) ::
      received <= ms && (!broken ==> received == ms && at == |stream|)
  {
    forall ms | AllReceivable(ms, cap) && stream[start..] == ImageAll(ms)
      ensures received <= ms && (!broken ==> received == ms && at == |stream|)
    {
      AllSentIsReceived(ms, cap);
      AllSentIsTaken(ms, cap);
    }
  }

  /** Sends messages one after the other until one fails; done is how many went out whole. */
  method SendWhilePossible(sock: Socket, ms: seq<Msg>) returns (done: nat)
    requires sock.Valid() && forall i | 0 <= i < |ms| :: TypeIsValid(ms[i].typ) && |ms[i].payload| < 0x1_0000_0000
    modifies sock`outbound, sock`stalls
    ensures done <= |ms|
    ensures done == |ms| ==> sock.outbound == old(sock.outbound) + ImageAll(ms)
    ensures done < |ms| ==> Pushed(old(sock.outbound) + ImageAll(ms[..done]), sock.outbound, Image(ms[done]), false)
  {
    done := 0;
    assert ms[..0] == [];
    hide Image, ImageAll;
    while done < |ms|
      invariant 0 <= done <= |ms|
      invariant sock.outbound == old(sock.outbound) + ImageAll(ms[..done])
    {
      var ok := SendMsg(sock, ms[done]);
      if !ok {
        return;
      }
      ImageAllSnoc(ms, done);
      done := done + 1;
    }
    assert ms[..done] == ms;
  }

  /**
   * Fragmentation independence from end to end. Whatever pieces the two sockets
   * make of it: what is sent over one connection and received on its other end is
   * the messages that went out whole, and nothing of one that did not.
   */
  method Transfer(ms: seq<Msg>, cap: nat, sendStalls: nat, recvStalls: nat)
    returns (done: nat, received: seq<Msg>, broken: bool, left: nat)
    requires AllReceivable(ms, cap)
    ensures done <= |ms| && received <= ms[..done]
    ensures !broken ==> received == ms[..done] && left == 0
  {
    var out := new Socket([], sendStalls);
    done := SendWhilePossible(out, ms);
    var here := new Socket(out.outbound, recvStalls);
    var payload := new byte[cap];
    received := RecvWhilePossible(here, payload);
    broken, left := here.broken, |here.inbound| - here.taken;
    ghost var stream := here.inbound;
    assert stream[0..] == stream;
    if done == |ms| {
      assert ms[..done] == ms && [] + ImageAll(ms) == ImageAll(ms);
    } else {
      CutOffStream(ms, done, stream, cap);
    }
  }

  lemma {:induction false} CutOffStream(ms: seq<Msg>, done: nat, stream: seq<byte>, cap: nat)
    requires AllReceivable(ms, cap) && done < |ms|
    requires Pushed([] + ImageAll(ms[..done]), stream, Image(ms[done]), false)
    ensures DeframeAll(stream, cap) == ms[..done] && Taken(stream, cap) == |stream|
  {
    hide Image, ImageAll;
    var sent := ImageAll(ms[..done]);
    var k := |stream| - |sent|;
    assert stream == sent + Image(ms[done])[..k];
    CutOffIsUnheard(ms[..done], ms[done], k, cap);
    CutOffIsTaken(ms[..done], ms[done], k, cap);
  }
}
