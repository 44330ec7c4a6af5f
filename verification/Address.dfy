/** Target addresses: "host:port" is put together for a stream and taken apart to connect. */
module Address {
  import opened Bytes
  import opened Kernel
  import opened Options
  import opened Sequences
  import opened Text
  import opened Wire

  const TARGET_MAX := 320
  const ADDR_HOST_MAX := 256
  const ADDR_PORT_MAX := 32

  function Target(host: string, port: nat): string {
    host + ":" + Dec(port)
  }

  /** The parts around the last colon, if both are non-empty and fit their buffers. */
  function SplitAddr(addr: string, hostCap: nat, portCap: nat): Option<(string, string)> {
    var colon := Last(addr, ':');
    if colon <= 0 || colon == |addr| - 1 || colon >= hostCap || |addr| - colon - 1 >= portCap then None
    else Some((addr[..colon], addr[colon + 1..]))
  }

  method ParseAddr(addr: string, host: array<char>, port: array<char>) returns (ok: bool)
    requires host != port && NUL !in addr
    modifies host, port
    ensures ok <==> host.Length > 0 && port.Length > 0 && SplitAddr(addr, host.Length, port.Length).Some?
    ensures ok ==> SplitAddr(addr, host.Length, port.Length) == Some((Held(host), Held(port)))
    ensures !ok ==> host[..] == old(host[..]) && port[..] == old(port[..])
  {
    if host.Length == 0 || port.Length == 0 {
      return false;
    }
    var colon := Last(addr, ':');
    if colon == -1 || colon == 0 || colon + 1 == |addr| {
      return false;
    }
    if colon >= host.Length || |addr| - colon - 1 >= port.Length {
      return false;
    }
    CopyText(host, addr[..colon]);
    CopyText(port, addr[colon + 1..]);
    return true;
  }

  /**
   * For every OPEN the decoder accepts, the target text fits its buffer uncut,
   * and splitting it recovers the host, colons and all, and the port number.
   */
  lemma {:induction false} TargetRoundTrip(payload: seq<byte>)
    requires ParseSocksOpen(payload).Some?
    ensures var m := ParseSocksOpen(payload).value;
      var host := Chars(CStr(m.host));
      var text := Printed(Target(host, m.port), TARGET_MAX);
      && text == Target(host, m.port)
      && SplitAddr(text, ADDR_HOST_MAX, ADDR_PORT_MAX) == Some((host, Dec(m.port)))
      && Value(Dec(m.port)) == m.port
  {
    var m := ParseSocksOpen(payload).value;
    SocksOpenExact(payload, m);
    var host, port := Chars(CStr(m.host)), Dec(m.port);
    assert Pow10(5) == 100000;
    DecLength(m.port, 5);
    DecValue(m.port);
    DecHasNo(m.port, ':');
    LastSplit(host, ':', port);
    assert Target(host, m.port)[..|host|] == host && Target(host, m.port)[|host| + 1..] == port;
  }

  /** Connects to the host and port that an address splits into; a malformed address fails. */
  method TcpConnect(os: Os, addr: string) returns (fd: int)
    requires os.Valid() && NUL !in addr
    modifies os`open, os`trace
    ensures os.Valid()
    ensures var parts := SplitAddr(addr, ADDR_HOST_MAX, ADDR_PORT_MAX);
      if fd == NO_FD then
        && os.open == old(os.open)
        && os.trace == old(os.trace) + if parts.None? then [] else [Unreachable(parts.value.0, parts.value.1)]
      else
        && parts.Some?
        && fd >= 0 && fd !in old(os.open) && os.open == old(os.open) + {fd}
        && os.trace == old(os.trace) + [Opened(fd), Dialed(fd, parts.value.0, parts.value.1)]
  {
    var host := new char[ADDR_HOST_MAX];
    var port := new char[ADDR_PORT_MAX];
    var ok := ParseAddr(addr, host, port);
    if !ok {
      return NO_FD;
    }
    fd := os.Connect(TextAt(host, 0), TextAt(port, 0));
    assert host[0..] == host[..] && port[0..] == port[..];
  }

  /** Connects to the target that an OPEN names, by way of its printed address. */
  method ConnectTarget(os: Os, payload: seq<byte>) returns (fd: int)
    requires os.Valid() && ParseSocksOpen(payload).Some?
    modifies os`open, os`trace
    ensures os.Valid()
    ensures var m := ParseSocksOpen(payload).value;
      fd == NO_FD ==> os.open == old(os.open) && os.trace == old(os.trace) + [Unreachable(Chars(CStr(m.host)), Dec(m.port))]
    ensures fd != NO_FD ==>
      var m := ParseSocksOpen(payload).value;
      && fd >= 0 && fd !in old(os.open) && os.open == old(os.open) + {fd}
      && os.trace == old(os.trace) + [Opened(fd), Dialed(fd, Chars(CStr(m.host)), Dec(m.port))]
  {
    hide Os.Valid, SplitAddr, ParseSocksOpen;
    var m := ParseSocksOpen(payload).value;
    TargetRoundTrip(payload);
    NoNulInTarget(m);
    fd := TcpConnect(os, Printed(Target(Chars(CStr(m.host)), m.port), TARGET_MAX));
  }

  lemma {:induction false} NoNulInTarget(m: SocksOpen)
    ensures NUL !in Target(Chars(CStr(m.host)), m.port)
  {
    DecHasNo(m.port, NUL);
    var host := CStr(m.host);
    assert forall i | 0 <= i < |host| :: host[i] in host;
  }
}
