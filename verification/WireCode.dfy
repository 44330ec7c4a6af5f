/** The encoders and decoders as the program runs them, against the formats of module Wire. */
module WireCode {
  import opened Bytes
  import opened Frame
  import opened GrowingBuffer
  import opened Options
  import opened Sequences
  import opened Wire

  // -------------------------------------------------------------------------
  // Encoding
  // -------------------------------------------------------------------------

  /** What an encoder leaves: the image at the start of the output if it fits, or the output untouched. */
  ghost predicate Encoded(before: seq<byte>, after: seq<byte>, n: Option<nat>, allowed: bool, image: seq<byte>) {
    && (n.Some? <==> allowed && |image| <= |before|)
    && (n.Some? ==> n.value == |image| <= |before| && after == image + before[|image|..])
    && (n.None? ==> after == before)
  }

  /** The buffer is as after the first k appends of a run that has not failed yet; they made up contents. */
  ghost predicate Filled(buf: Buffer, sizes: seq<nat>, k: nat, memory: seq<bool>, contents: seq<byte>)
    reads buf, buf.Repr, buf.data
  {
    && buf.Valid() && k <= |sizes| == |memory| && Total(sizes) <= SIZE_MAX
    && buf.Contents == contents && |contents| == Total(sizes[..k])
    && buf.data.Length == CapacityAfter(sizes[..k]) && Provided(sizes[..k], memory)
  }

  method NewBuffer(ghost sizes: seq<nat>, ghost memory: seq<bool>) returns (buf: Buffer)
    requires |sizes| == |memory| && Total(sizes) <= SIZE_MAX
    ensures Filled(buf, sizes, 0, memory, []) && fresh(buf) && fresh(buf.data)
  {
    buf := new Buffer();
    assert sizes[..0] == [];
  }

  /** The k-th append of a run; memory holds the allocator's answers to each of them. */
  method AppendAt(
    buf: Buffer, bytes: seq<byte>, k: nat, memory: seq<bool>, ghost sizes: seq<nat>, ghost contents: seq<byte>)
    returns (ok: bool, ghost now: seq<byte>)
    requires Filled(buf, sizes, k, memory, contents) && k < |sizes| && sizes[k] == |bytes|
    modifies buf, buf.data
    ensures buf.data == old(buf.data) || fresh(buf.data)
    ensures now == contents + bytes
    ensures if ok then Filled(buf, sizes, k + 1, memory, now) else !Provided(sizes, memory)
  {
    TotalPart(sizes, k);
    TotalPart(sizes, k + 1);
    now := contents + bytes;
    assert sizes[..k + 1][..k] == sizes[..k];
    CapacityIsTight(sizes[..k]);
    ok := buf.Append(bytes, memory[k]);
    if !ok && Provided(sizes, memory) {
      ProvidedPart(sizes, memory, k + 1);
    }
  }

  lemma FilledAll(buf: Buffer, sizes: seq<nat>, memory: seq<bool>, contents: seq<byte>)
    requires Filled(buf, sizes, |sizes|, memory, contents)
    ensures buf.Valid() && buf.Contents == contents && buf.len == |contents| && Provided(sizes, memory)
  {
    assert sizes[..|sizes|] == sizes;
  }

  /** Two appends: the length and the characters up to the NUL. A text too long to count makes it fail. */
  method AppendString(
    buf: Buffer, value: seq<byte>, k: nat, memory: seq<bool>, ghost sizes: seq<nat>, ghost contents: seq<byte>)
    returns (ok: bool, ghost now: seq<byte>)
    requires Filled(buf, sizes, k, memory, contents) && k + 1 < |sizes|
    requires |UpTo(value, 0)| <= 0xFFFF ==> sizes[k] == 2 && sizes[k + 1] == |UpTo(value, 0)|
    modifies buf, buf.data
    ensures buf.data == old(buf.data) || fresh(buf.data)
    ensures ok ==> |UpTo(value, 0)| <= 0xFFFF && now == contents + Counted(UpTo(value, 0))
    ensures ok ==> Filled(buf, sizes, k + 2, memory, now)
    ensures !ok ==> |UpTo(value, 0)| > 0xFFFF || !Provided(sizes, memory)
  {
    hide Filled, Provided, UpTo;
    var text := UpTo(value, 0);
    now := contents;
    if |text| > 0xFFFF {
      return false, now;
    }
    var raw := Be16(|text|);
    assert contents + raw + text == contents + (raw + text);
    ok, now := AppendAt(buf, raw, k, memory, sizes, now);
    if ok {
      ok, now := AppendAt(buf, text, k + 1, memory, sizes, now);
    }
  }

  /** Copies a finished buffer out if it fits. */
  method CopyOut(buf: Buffer, out: array<byte>) returns (n: Option<nat>)
    requires buf.Valid() && out != buf.data
    modifies out
    ensures Encoded(old(out[..]), out[..], n, true, buf.Contents)
  {
    if buf.len > out.Length {
      return None;
    }
    forall i | 0 <= i < buf.len {
      out[i] := buf.data[i];
    }
    n := Some(buf.len);
  }

  /** The sizes of the appends that make up a HELLO. */
  function HelloSizes(version: seq<byte>): seq<nat> {
    [1, 2, |UpTo(version, 0)|, 4, 16]
  }

  method AppendHello(
    buf: Buffer, role: byte, version: seq<byte>, features: u32, nonce: Nonce, memory: seq<bool>, ghost sizes: seq<nat>)
    returns (ok: bool, ghost done: seq<byte>)
    requires sizes == HelloSizes(version) && Filled(buf, sizes, 0, memory, [])
    modifies buf, buf.data
    ensures buf.data == old(buf.data) || fresh(buf.data)
    ensures ok ==> Filled(buf, sizes, 5, memory, done) && |UpTo(version, 0)| <= 0xFFFF
    ensures ok ==> done == [] + [role] + Counted(UpTo(version, 0)) + Be32(features) + nonce
    ensures !ok ==> |UpTo(version, 0)| > 0xFFFF || !Provided(sizes, memory)
  {
    var bits := Be32(features);
    assert |bits| == 4;
    hide Filled, Provided, UpTo, Be32, Counted;
    ok, done := AppendAt(buf, [role], 0, memory, sizes, []);
    if !ok { return; }
    ok, done := AppendString(buf, version, 1, memory, sizes, done);
    if !ok { return; }
    ok, done := AppendAt(buf, bits, 3, memory, sizes, done);
    if !ok { return; }
    ok, done := AppendAt(buf, nonce, 4, memory, sizes, done);
  }

  method EncodeHello(out: array<byte>, role: byte, version: seq<byte>, features: u32, nonce: Nonce, memory: seq<bool>)
    returns (n: Option<nat>)
    requires |version| < SIZE_MAX / 2 && |memory| == |HelloSizes(version)|
    modifies out
    ensures |UpTo(version, 0)| <= 0xFFFF
      ==> Encoded(old(out[..]), out[..], n, Provided(HelloSizes(version), memory),
                  HelloLayout(Hello(role, UpTo(version, 0), features, nonce)))
    ensures |UpTo(version, 0)| > 0xFFFF ==> n.None? && out[..] == old(out[..])
  {
    ghost var sizes := HelloSizes(version);
    TotalOfFew(sizes);
    hide Provided, UpTo, HelloLayout, Total, Filled, Buffer.Valid, Be32, Counted;
    var buf := NewBuffer(sizes, memory);
    var ok;
    ghost var done: seq<byte>;
    ok, done := AppendHello(buf, role, version, features, nonce, memory, sizes);
    if !ok {
      return None;
    }
    FilledAll(buf, sizes, memory, done);
    HelloParts(Hello(role, UpTo(version, 0), features, nonce));
    n := CopyOut(buf, out);
  }

  function AuthNodeSizes(nodeId: seq<byte>): seq<nat> {
    [2, |UpTo(nodeId, 0)|, 16, 32]
  }

  method AppendAuthNode(buf: Buffer, nodeId: seq<byte>, nonce: Nonce, sign: Sign, memory: seq<bool>, ghost sizes: seq<nat>)
    returns (ok: bool, ghost done: seq<byte>)
    requires sizes == AuthNodeSizes(nodeId) && Filled(buf, sizes, 0, memory, [])
    modifies buf, buf.data
    ensures buf.data == old(buf.data) || fresh(buf.data)
    ensures ok ==> Filled(buf, sizes, 4, memory, done) && |UpTo(nodeId, 0)| <= 0xFFFF
    ensures ok ==> done == [] + Counted(UpTo(nodeId, 0)) + nonce + sign
    ensures !ok ==> |UpTo(nodeId, 0)| > 0xFFFF || !Provided(sizes, memory)
  {
    hide Filled, Provided, UpTo, Counted;
    ok, done := AppendString(buf, nodeId, 0, memory, sizes, []);
    if !ok { return; }
    ok, done := AppendAt(buf, nonce, 2, memory, sizes, done);
    if !ok { return; }
    ok, done := AppendAt(buf, sign, 3, memory, sizes, done);
  }

  method EncodeAuthNode(out: array<byte>, nodeId: seq<byte>, nonce: Nonce, sign: Sign, memory: seq<bool>)
    returns (n: Option<nat>)
    requires |nodeId| < SIZE_MAX / 2 && |memory| == |AuthNodeSizes(nodeId)|
    modifies out
    ensures |UpTo(nodeId, 0)| <= 0xFFFF
      ==> Encoded(old(out[..]), out[..], n, Provided(AuthNodeSizes(nodeId), memory),
                  AuthNodeLayout(AuthNode(UpTo(nodeId, 0), nonce, sign)))
    ensures |UpTo(nodeId, 0)| > 0xFFFF ==> n.None? && out[..] == old(out[..])
  {
    ghost var sizes := AuthNodeSizes(nodeId);
    TotalOfFew(sizes);
    hide Provided, UpTo, AuthNodeLayout, Total, Filled, Buffer.Valid, Counted;
    var buf := NewBuffer(sizes, memory);
    var ok;
    ghost var done: seq<byte>;
    ok, done := AppendAuthNode(buf, nodeId, nonce, sign, memory, sizes);
    if !ok {
      return None;
    }
    FilledAll(buf, sizes, memory, done);
    AuthNodeParts(AuthNode(UpTo(nodeId, 0), nonce, sign));
    n := CopyOut(buf, out);
  }

  function AuthTapSizes(username: seq<byte>, password: seq<byte>): seq<nat> {
    [2, |UpTo(username, 0)|, 2, |UpTo(password, 0)|, 4, 16]
  }

  method AppendAuthTap(
    buf: Buffer, username: seq<byte>, password: seq<byte>, networkId: u32, nonce: Nonce, memory: seq<bool>,
    ghost sizes: seq<nat>)
    returns (ok: bool, ghost done: seq<byte>)
    requires sizes == AuthTapSizes(username, password) && Filled(buf, sizes, 0, memory, [])
    modifies buf, buf.data
    ensures buf.data == old(buf.data) || fresh(buf.data)
    ensures ok ==> Filled(buf, sizes, 6, memory, done) && |UpTo(username, 0)| <= 0xFFFF && |UpTo(password, 0)| <= 0xFFFF
    ensures ok ==> done == [] + Counted(UpTo(username, 0)) + Counted(UpTo(password, 0)) + Be32(networkId) + nonce
    ensures !ok ==> |UpTo(username, 0)| > 0xFFFF || |UpTo(password, 0)| > 0xFFFF || !Provided(sizes, memory)
  {
    var network := Be32(networkId);
    assert |network| == 4;
    hide Filled, Provided, UpTo, Be32, Counted;
    ok, done := AppendString(buf, username, 0, memory, sizes, []);
    if !ok { return; }
    ok, done := AppendString(buf, password, 2, memory, sizes, done);
    if !ok { return; }
    ok, done := AppendAt(buf, network, 4, memory, sizes, done);
    if !ok { return; }
    ok, done := AppendAt(buf, nonce, 5, memory, sizes, done);
  }

  method EncodeAuthTap(
    out: array<byte>, username: seq<byte>, password: seq<byte>, networkId: u32, nonce: Nonce, memory: seq<bool>)
    returns (n: Option<nat>)
    requires |username| < SIZE_MAX / 4 && |password| < SIZE_MAX / 4 && |memory| == |AuthTapSizes(username, password)|
    modifies out
    ensures |UpTo(username, 0)| <= 0xFFFF && |UpTo(password, 0)| <= 0xFFFF
      ==> Encoded(old(out[..]), out[..], n, Provided(AuthTapSizes(username, password), memory),
                  AuthTapLayout(AuthTap(UpTo(username, 0), UpTo(password, 0), networkId, nonce)))
    ensures |UpTo(username, 0)| > 0xFFFF || |UpTo(password, 0)| > 0xFFFF ==> n.None? && out[..] == old(out[..])
  {
    ghost var sizes := AuthTapSizes(username, password);
    TotalOfFew(sizes);
    hide Provided, UpTo, AuthTapLayout, Total, Filled, Buffer.Valid, Be32, Counted;
    var buf := NewBuffer(sizes, memory);
    var ok;
    ghost var done: seq<byte>;
    ok, done := AppendAuthTap(buf, username, password, networkId, nonce, memory, sizes);
    if !ok {
      return None;
    }
    FilledAll(buf, sizes, memory, done);
    AuthTapParts(AuthTap(UpTo(username, 0), UpTo(password, 0), networkId, nonce));
    n := CopyOut(buf, out);
  }

  function ConfigSizes(m: ConfigPush): seq<nat> {
    [4, 4, 1, 1, 1, 2, |CStr(m.tapName)|, 2, |CStr(m.bridgeName)|, 2, 2, 4,
     2, |CStr(m.directMode)|, 2, |CStr(m.directAddr)|, 2, |CStr(m.directToken)|]
  }

  lemma {:induction false} ConfigSizesAt(m: ConfigPush)
    ensures var s := ConfigSizes(m);
      && |s| == 18
      && s[0] == s[1] == 4 && s[2] == s[3] == s[4] == 1
      && s[5] == s[7] == 2 && s[6] == |CStr(m.tapName)| && s[8] == |CStr(m.bridgeName)|
      && s[9] == s[10] == 2 && s[11] == 4
      && s[12] == s[14] == s[16] == 2
      && s[13] == |CStr(m.directMode)| && s[15] == |CStr(m.directAddr)| && s[17] == |CStr(m.directToken)|
  {
  }

  method AppendConfigSwitches(buf: Buffer, m: ConfigPush, memory: seq<bool>, ghost contents: seq<byte>)
    returns (ok: bool, ghost done: seq<byte>)
    requires Filled(buf, ConfigSizes(m), 0, memory, contents)
    modifies buf, buf.data
    ensures buf.data == old(buf.data) || fresh(buf.data)
    ensures ok ==> Filled(buf, ConfigSizes(m), 5, memory, done)
    ensures ok ==>
      done == contents + Be32(m.version) + Be32(m.networkId) + [m.tapEnabled] + [m.socksEnabled] + [m.directEnabled]
    ensures !ok ==> !Provided(ConfigSizes(m), memory)
  {
    hide ConfigSizes;
    ghost var sizes := ConfigSizes(m);
    ConfigSizesAt(m);
    var version, network := Be32(m.version), Be32(m.networkId);
    assert |version| == |network| == 4;
    hide Filled, Provided, Be32, Buffer.Valid;
    ok, done := AppendAt(buf, version, 0, memory, sizes, contents);
    if !ok { return; }
    ok, done := AppendAt(buf, network, 1, memory, sizes, done);
    if !ok { return; }
    ok, done := AppendAt(buf, [m.tapEnabled], 2, memory, sizes, done);
    if !ok { return; }
    ok, done := AppendAt(buf, [m.socksEnabled], 3, memory, sizes, done);
    if !ok { return; }
    ok, done := AppendAt(buf, [m.directEnabled], 4, memory, sizes, done);
  }

  method AppendConfigNames(buf: Buffer, m: ConfigPush, memory: seq<bool>, ghost contents: seq<byte>)
    returns (ok: bool, ghost done: seq<byte>)
    requires Filled(buf, ConfigSizes(m), 5, memory, contents)
    modifies buf, buf.data
    ensures buf.data == old(buf.data) || fresh(buf.data)
    ensures ok ==> Filled(buf, ConfigSizes(m), 9, memory, done)
    ensures ok ==> done == contents + Counted(CStr(m.tapName)) + Counted(CStr(m.bridgeName))
    ensures !ok ==> !Provided(ConfigSizes(m), memory)
  {
    hide ConfigSizes;
    ghost var sizes := ConfigSizes(m);
    ConfigSizesAt(m);
    hide Filled, Provided, Counted, UpTo, Buffer.Valid;
    ok, done := AppendString(buf, m.tapName, 5, memory, sizes, contents);
    if !ok { return; }
    ok, done := AppendString(buf, m.bridgeName, 7, memory, sizes, done);
  }

  method AppendConfigNumbers(buf: Buffer, m: ConfigPush, memory: seq<bool>, ghost contents: seq<byte>)
    returns (ok: bool, ghost done: seq<byte>)
    requires Filled(buf, ConfigSizes(m), 9, memory, contents)
    modifies buf, buf.data
    ensures buf.data == old(buf.data) || fresh(buf.data)
    ensures ok ==> Filled(buf, ConfigSizes(m), 12, memory, done)
    ensures ok ==> done == contents + Be16(m.mtu) + Be16(m.directPort) + Be32(m.flags)
    ensures !ok ==> !Provided(ConfigSizes(m), memory)
  {
    hide ConfigSizes;
    ghost var sizes := ConfigSizes(m);
    ConfigSizesAt(m);
    var mtu, port, flags := Be16(m.mtu), Be16(m.directPort), Be32(m.flags);
    assert |mtu| == |port| == 2 && |flags| == 4;
    hide Filled, Provided, Be16, Be32, Buffer.Valid;
    ok, done := AppendAt(buf, mtu, 9, memory, sizes, contents);
    if !ok { return; }
    ok, done := AppendAt(buf, port, 10, memory, sizes, done);
    if !ok { return; }
    ok, done := AppendAt(buf, flags, 11, memory, sizes, done);
  }

  method AppendConfigTail(buf: Buffer, m: ConfigPush, memory: seq<bool>, ghost contents: seq<byte>)
    returns (ok: bool, ghost done: seq<byte>)
    requires Filled(buf, ConfigSizes(m), 12, memory, contents)
    modifies buf, buf.data
    ensures buf.data == old(buf.data) || fresh(buf.data)
    ensures ok ==> Filled(buf, ConfigSizes(m), 18, memory, done)
    ensures ok ==>
      done == contents + Counted(CStr(m.directMode)) + Counted(CStr(m.directAddr)) + Counted(CStr(m.directToken))
    ensures !ok ==> !Provided(ConfigSizes(m), memory)
  {
    hide ConfigSizes;
    ghost var sizes := ConfigSizes(m);
    ConfigSizesAt(m);
    hide Filled, Provided, Counted, UpTo, Buffer.Valid;
    ok, done := AppendString(buf, m.directMode, 12, memory, sizes, contents);
    if !ok { return; }
    ok, done := AppendString(buf, m.directAddr, 14, memory, sizes, done);
    if !ok { return; }
    ok, done := AppendString(buf, m.directToken, 16, memory, sizes, done);
  }

  /** The record's own buffers hold C strings, so the image is that of the NUL-cut record. */
  method EncodeConfigPush(out: array<byte>, m: ConfigPush, memory: seq<bool>) returns (n: Option<nat>)
    requires |memory| == |ConfigSizes(m)|
    modifies out
    ensures Encoded(old(out[..]), out[..], n, Provided(ConfigSizes(m), memory), ConfigLayout(ConfigC(m)))
  {
    ghost var sizes := ConfigSizes(m);
    ConfigTotal(m);
    hide Provided, ConfigSizes, ConfigLayout, Total, Counted, Be16, Be32, ConfigC, Filled, Buffer.Valid, UpTo;
    var buf := NewBuffer(sizes, memory);
    var ok;
    ghost var done: seq<byte>;
    ok, done := AppendConfigSwitches(buf, m, memory, []);
    if !ok { return None; }
    ok, done := AppendConfigNames(buf, m, memory, done);
    if !ok { return None; }
    ok, done := AppendConfigNumbers(buf, m, memory, done);
    if !ok { return None; }
    ok, done := AppendConfigTail(buf, m, memory, done);
    if !ok {
      return None;
    }
    FilledAll(buf, sizes, memory, done);
    RegroupClean(m);
    n := CopyOut(buf, out);
  }

  function SocksOpenSizes(host: seq<byte>): seq<nat> {
    [4, 2, |UpTo(host, 0)|, 2]
  }

  method AppendSocksOpen(buf: Buffer, streamId: u32, host: seq<byte>, port: u16, memory: seq<bool>, ghost sizes: seq<nat>)
    returns (ok: bool, ghost done: seq<byte>)
    requires sizes == SocksOpenSizes(host) && Filled(buf, sizes, 0, memory, [])
    modifies buf, buf.data
    ensures buf.data == old(buf.data) || fresh(buf.data)
    ensures ok ==> Filled(buf, sizes, 4, memory, done) && |UpTo(host, 0)| <= 0xFFFF
    ensures ok ==> done == [] + Be32(streamId) + Counted(UpTo(host, 0)) + Be16(port)
    ensures !ok ==> |UpTo(host, 0)| > 0xFFFF || !Provided(sizes, memory)
  {
    var id, wirePort := Be32(streamId), Be16(port);
    assert |id| == 4 && |wirePort| == 2;
    hide Filled, Provided, UpTo, Be16, Be32, Counted;
    ok, done := AppendAt(buf, id, 0, memory, sizes, []);
    if !ok { return; }
    ok, done := AppendString(buf, host, 1, memory, sizes, done);
    if !ok { return; }
    ok, done := AppendAt(buf, wirePort, 3, memory, sizes, done);
  }

  method EncodeSocksOpen(out: array<byte>, streamId: u32, host: seq<byte>, port: u16, memory: seq<bool>)
    returns (n: Option<nat>)
    requires |host| < SIZE_MAX / 2 && |memory| == |SocksOpenSizes(host)|
    modifies out
    ensures |UpTo(host, 0)| <= 0xFFFF
      ==> var image := SocksOpenLayout(SocksOpen(streamId, UpTo(host, 0), port));
          var allowed := UpTo(host, 0) != [] && port != 0 && |image| <= PAYLOAD_MAX_SOCKS;
          Encoded(old(out[..]), out[..], n, Provided(SocksOpenSizes(host), memory) && allowed, image)
    ensures |UpTo(host, 0)| > 0xFFFF ==> n.None? && out[..] == old(out[..])
  {
    if UpTo(host, 0) == [] || port == 0 {
      return None;
    }
    ghost var sizes := SocksOpenSizes(host);
    TotalOfFew(sizes);
    hide Provided, UpTo, SocksOpenLayout, Total, Filled, Buffer.Valid, Be16, Be32, Counted;
    var buf := NewBuffer(sizes, memory);
    var ok;
    ghost var done: seq<byte>;
    ok, done := AppendSocksOpen(buf, streamId, host, port, memory, sizes);
    if !ok {
      return None;
    }
    FilledAll(buf, sizes, memory, done);
    SocksOpenParts(SocksOpen(streamId, UpTo(host, 0), port));
    if buf.len > PAYLOAD_MAX_SOCKS {
      return None;
    }
    n := CopyOut(buf, out);
  }

  // Images as the encoders put them together.

  lemma {:induction false} HelloParts(m: Hello)
    ensures [] + [m.role] + Counted(m.version) + Be32(m.features) + m.nonce == HelloLayout(m)
  {
    Regroup([m.role], Counted(m.version), Be32(m.features), m.nonce);
  }

  lemma {:induction false} AuthNodeParts(m: AuthNode)
    ensures [] + Counted(m.nodeId) + m.nonce + m.sign == AuthNodeLayout(m)
  {
    Regroup3(Counted(m.nodeId), m.nonce, m.sign);
  }

  lemma {:induction false} AuthTapParts(m: AuthTap)
    ensures [] + Counted(m.username) + Counted(m.password) + Be32(m.networkId) + m.nonce == AuthTapLayout(m)
  {
    Regroup(Counted(m.username), Counted(m.password), Be32(m.networkId), m.nonce);
  }

  lemma {:induction false} SocksOpenParts(m: SocksOpen)
    ensures [] + Be32(m.streamId) + Counted(m.host) + Be16(m.port) == SocksOpenLayout(m)
  {
    Regroup3(Be32(m.streamId), Counted(m.host), Be16(m.port));
  }

  lemma {:induction false} TotalOfFew(sizes: seq<nat>)
    requires |sizes| <= 6
    ensures Total(sizes)
      == (if |sizes| > 0 then sizes[0] else 0) + (if |sizes| > 1 then sizes[1] else 0) + (if |sizes| > 2 then sizes[2] else 0)
         + (if |sizes| > 3 then sizes[3] else 0) + (if |sizes| > 4 then sizes[4] else 0) + (if |sizes| > 5 then sizes[5] else 0)
  {
    if sizes != [] {
      TotalOfFew(sizes[..|sizes| - 1]);
    }
  }

  lemma {:induction false} TotalBound(sizes: seq<nat>, bound: nat)
    requires forall i | 0 <= i < |sizes| :: sizes[i] <= bound
    ensures Total(sizes) <= |sizes| * bound
  {
    if sizes != [] {
      TotalBound(sizes[..|sizes| - 1], bound);
    }
  }

  lemma {:induction false} ConfigTotal(m: ConfigPush)
    ensures |ConfigSizes(m)| == 18 && Total(ConfigSizes(m)) <= SIZE_MAX
  {
    TotalBound(ConfigSizes(m), 0xFFFF);
  }

  lemma {:induction false} RegroupClean(m: ConfigPush)
    ensures [] + Be32(m.version) + Be32(m.networkId) + [m.tapEnabled] + [m.socksEnabled] + [m.directEnabled]
      + Counted(CStr(m.tapName)) + Counted(CStr(m.bridgeName)) + Be16(m.mtu) + Be16(m.directPort) + Be32(m.flags)
      + Counted(CStr(m.directMode)) + Counted(CStr(m.directAddr)) + Counted(CStr(m.directToken)) == ConfigLayout(ConfigC(m))
  {
    hide ConfigLayout, Counted, Be16, Be32;
    RegroupConfig(ConfigC(m));
  }

  method EncodeAuthOk(out: array<byte>, m: AuthOk)
    requires out.Length == AUTH_OK_SIZE
    modifies out
    ensures out[..] == AuthOkLayout(m)
  {
    var id, network, time, features := Be32(m.sessionId), Be32(m.networkId), Be64(m.serverTime), Be32(m.features);
    assert |id| == |network| == |features| == 4 && |time| == 8;
    ghost var before := out[..];
    Regroup(id, network, time, features);
    hide Be32, Be64;
    PutAt(out, 0, id, [], before);
    PutAt(out, 4, network, [] + id, before[4..]);
    PutAt(out, 8, time, [] + id + network, before[4..][4..]);
    PutAt(out, 16, features, [] + id + network + time, before[4..][4..][8..]);
  }

  method EncodeTapFrame(out: array<byte>, networkId: u32, frame: Text) returns (n: Option<nat>)
    modifies out
    ensures Encoded(old(out[..]), out[..], n, |frame| >= MIN_FRAME, TapFrameLayout(TapFrame(networkId, frame)))
  {
    hide Encoded, TapFrameLayout;
    TapFrameParts(networkId, frame);
    ghost var before, image := out[..], TapFrameLayout(TapFrame(networkId, frame));
    if |frame| < MIN_FRAME || out.Length < TAP_FRAME_OVERHEAD + |frame| {
      NothingPlaced(before, |frame| >= MIN_FRAME, image);
      return None;
    }
    var id, len := Be32(networkId), Be16(|frame|);
    DropThrice(before, 4, 2, |frame|);
    hide Be32, Be16;
    PutAt(out, 0, id, [], before);
    PutAt(out, 4, len, [] + id, before[4..]);
    PutAt(out, TAP_FRAME_OVERHEAD, frame, [] + id + len, before[4..][2..]);
    n := Some(TAP_FRAME_OVERHEAD + |frame|);
    ImagePlaced(before, out[..], image);
  }

  lemma {:induction false} TapFrameParts(networkId: u32, frame: Text)
    ensures |Be32(networkId)| == 4 && |Be16(|frame|)| == 2
    ensures [] + Be32(networkId) + Be16(|frame|) + frame == TapFrameLayout(TapFrame(networkId, frame))
  {
    Regroup3(Be32(networkId), Be16(|frame|), frame);
  }

  lemma {:induction false} NothingPlaced(before: seq<byte>, allowed: bool, image: seq<byte>)
    requires !allowed || |image| > |before|
    ensures Encoded(before, before, None, allowed, image)
  {
  }

  lemma {:induction false} DropThrice(b: seq<byte>, i: nat, j: nat, k: nat)
    requires i + j + k <= |b|
    ensures b[i..][j..][k..] == b[i + j + k..]
  {
    assert b[i..][j..] == b[i + j..];
  }

  lemma {:induction false} ImagePlaced(before: seq<byte>, after: seq<byte>, image: seq<byte>)
    requires |image| <= |before| && after == image + before[|image|..]
    ensures Encoded(before, after, Some(|image|), true, image)
  {
  }

  method EncodeSocksData(out: array<byte>, streamId: u32, data: seq<byte>) returns (n: Option<nat>)
    modifies out
    ensures Encoded(old(out[..]), out[..], n, SocksDataOk(SocksData(streamId, data)), SocksDataLayout(SocksData(streamId, data)))
  {
    if streamId == 0 || data == [] || |data| > PAYLOAD_MAX_SOCKS - SOCKS_DATA_OVERHEAD
       || out.Length < SOCKS_DATA_OVERHEAD + |data| {
      return None;
    }
    ghost var before := out[..];
    var id := Be32(streamId);
    assert |id| == 4 && [] + id + data == id + data;
    assert SocksDataLayout(SocksData(streamId, data)) == id + data;
    hide Be32, SocksDataLayout;
    PutAt(out, 0, id, [], before);
    PutAt(out, SOCKS_DATA_OVERHEAD, data, [] + id, before[4..]);
    n := Some(SOCKS_DATA_OVERHEAD + |data|);
    assert before[4..][|data|..] == before[n.value..];
  }

  method EncodeSocksCloseReason(out: array<byte>, m: SocksClose) returns (ok: bool)
    requires out.Length == SOCKS_CLOSE_REASON_SIZE
    modifies out
    ensures ok <==> m.streamId != 0
    ensures out[..] == if ok then SocksCloseLayout(m) else old(out[..])
  {
    if m.streamId == 0 {
      return false;
    }
    var id, reason, flags := Be32(m.streamId), Be16(m.reason), Be16(m.flags);
    assert |id| == 4 && |reason| == |flags| == 2;
    ghost var before := out[..];
    Regroup3(id, reason, flags);
    hide Be32, Be16;
    PutAt(out, 0, id, [], before);
    PutAt(out, 4, reason, [] + id, before[4..]);
    PutAt(out, 6, flags, [] + id + reason, before[4..][2..]);
    return true;
  }

  lemma {:induction false} Regroup(a: seq<byte>, b: seq<byte>, c: seq<byte>, d: seq<byte>)
    ensures [] + a + b + c + d == a + (b + (c + d))
  {
  }

  lemma {:induction false} Regroup3(a: seq<byte>, b: seq<byte>, c: seq<byte>)
    ensures [] + a + b + c == a + (b + c)
  {
  }

  lemma {:induction false} Assoc(a: seq<byte>, b: seq<byte>, c: seq<byte>)
    ensures a + b + c == a + (b + c)
  {
  }

  lemma {:induction false} RegroupConfig(m: ConfigPush)
    ensures [] + Be32(m.version) + Be32(m.networkId) + [m.tapEnabled] + [m.socksEnabled] + [m.directEnabled]
      + Counted(m.tapName) + Counted(m.bridgeName) + Be16(m.mtu) + Be16(m.directPort) + Be32(m.flags)
      + Counted(m.directMode) + Counted(m.directAddr) + Counted(m.directToken) == ConfigLayout(m)
  {
    var p2 := Be32(m.version) + Be32(m.networkId);
    var p5 := p2 + [m.tapEnabled] + [m.socksEnabled] + [m.directEnabled];
    var p7 := p5 + Counted(m.tapName) + Counted(m.bridgeName);
    var p10 := p7 + Be16(m.mtu) + Be16(m.directPort) + Be32(m.flags);
    var tail := ConfigTail(m);
    var numbers := ConfigNumbers(m, tail);
    var names := ConfigNames(m, tail);
    Assoc(p10 + Counted(m.directMode), Counted(m.directAddr), Counted(m.directToken));
    Assoc(p10, Counted(m.directMode), Counted(m.directAddr) + Counted(m.directToken));
    Assoc(p7 + Be16(m.mtu) + Be16(m.directPort), Be32(m.flags), tail);
    Assoc(p7 + Be16(m.mtu), Be16(m.directPort), Be32(m.flags) + tail);
    Assoc(p7, Be16(m.mtu), Be16(m.directPort) + (Be32(m.flags) + tail));
    Assoc(p5 + Counted(m.tapName), Counted(m.bridgeName), numbers);
    Assoc(p5, Counted(m.tapName), Counted(m.bridgeName) + numbers);
    Assoc(p2 + [m.tapEnabled] + [m.socksEnabled], [m.directEnabled], names);
    Assoc(p2 + [m.tapEnabled], [m.socksEnabled], [m.directEnabled] + names);
    Assoc(p2, [m.tapEnabled], [m.socksEnabled] + ([m.directEnabled] + names));
    Assoc(Be32(m.version), Be32(m.networkId), [m.tapEnabled] + ([m.socksEnabled] + ([m.directEnabled] + names)));
    assert [] + Be32(m.version) == Be32(m.version);
  }

  // -------------------------------------------------------------------------
  // Decoding
  // -------------------------------------------------------------------------

  /** Reads a counted string at the cursor, if it fits a buffer of size cap with its terminator. */
  method ReadString(payload: seq<byte>, pos: nat, cap: nat) returns (text: Option<Text>, next: nat)
    requires pos <= |payload|
    ensures pos <= next <= |payload|
    ensures match TakeStr(payload[pos..], cap)
      case None => text == None
      case Some(r) => text == Some(r.0) && payload[next..] == r.1
  {
    next := pos;
    if pos + 2 > |payload| {
      return None, next;
    }
    var n := Get16(payload[pos..pos + 2]);
    assert payload[pos..][..2] == payload[pos..pos + 2] && payload[pos..][2..] == payload[pos + 2..];
    if pos + 2 + n > |payload| || n >= cap {
      return None, next;
    }
    assert payload[pos + 2..][..n] == payload[pos + 2..pos + 2 + n];
    next := pos + 2 + n;
    text := Some(payload[pos + 2..next]);
  }

  method DecodeHello(payload: seq<byte>) returns (m: Option<Hello>)
    ensures m == ParseHello(payload)
  {
    if |payload| < 1 {
      return None;
    }
    var role := payload[0];
    var version, pos := ReadString(payload, 1, VERSION_TEXT_MAX);
    if version.None? || pos + 4 + 16 != |payload| {
      return None;
    }
    assert payload[pos..][..4] == payload[pos..pos + 4] && payload[pos..][4..] == payload[pos + 4..];
    m := Some(Hello(role, version.value, Get32(payload[pos..pos + 4]), payload[pos + 4..]));
  }

  method DecodeAuthNode(payload: seq<byte>) returns (m: Option<AuthNode>)
    ensures m == ParseAuthNode(payload)
  {
    assert payload[0..] == payload;
    var nodeId, pos := ReadString(payload, 0, NODE_ID_MAX);
    if nodeId.None? || pos + 16 + 32 != |payload| {
      return None;
    }
    assert payload[pos..][..16] == payload[pos..pos + 16] && payload[pos..][16..] == payload[pos + 16..];
    m := Some(AuthNode(nodeId.value, payload[pos..pos + 16], payload[pos + 16..]));
  }

  method DecodeAuthTap(payload: seq<byte>) returns (m: Option<AuthTap>)
    ensures m == ParseAuthTap(payload)
  {
    assert payload[0..] == payload;
    var username, pos := ReadString(payload, 0, CONFIG_VALUE_MAX);
    if username.None? {
      return None;
    }
    var password, pos' := ReadString(payload, pos, CONFIG_VALUE_MAX);
    if password.None? || pos' + 4 + 16 != |payload| {
      return None;
    }
    assert payload[pos'..][..4] == payload[pos'..pos' + 4] && payload[pos'..][4..] == payload[pos' + 4..];
    m := Some(AuthTap(username.value, password.value, Get32(payload[pos'..pos' + 4]), payload[pos' + 4..]));
  }

  method DecodeAuthOk(payload: seq<byte>) returns (m: Option<AuthOk>)
    ensures m == ParseAuthOk(payload)
  {
    if |payload| != AUTH_OK_SIZE {
      return None;
    }
    assert payload[4..][..4] == payload[4..8] && payload[4..][4..] == payload[8..];
    assert payload[8..][..8] == payload[8..16] && payload[8..][8..] == payload[16..];
    assert payload[16..][..4] == payload[16..20];
    m := Some(AuthOk(Get32(payload[..4]), Get32(payload[4..8]), Get64(payload[8..16]), Get32(payload[16..20])));
  }

  method DecodeTapFrame(payload: seq<byte>) returns (m: Option<TapFrame>)
    ensures m == ParseTapFrame(payload)
  {
    if |payload| < TAP_FRAME_OVERHEAD {
      return None;
    }
    var n := Get16(payload[4..6]);
    assert payload[4..][..2] == payload[4..6] && payload[4..][2..] == payload[6..];
    if n < MIN_FRAME || |payload| != TAP_FRAME_OVERHEAD + n {
      return None;
    }
    m := Some(TapFrame(Get32(payload[..4]), payload[TAP_FRAME_OVERHEAD..]));
  }

  method DecodeSocksOpen(payload: seq<byte>) returns (m: Option<SocksOpen>)
    ensures m == ParseSocksOpen(payload)
  {
    if |payload| < 4 + 2 + 2 {
      ShortOpenRefused(payload);
      return None;
    }
    var streamId := Get32(payload[..4]);
    var host, pos := ReadString(payload, 4, SOCKS_HOST_MAX);
    if host.None? || pos + 2 != |payload| {
      return None;
    }
    assert payload[pos..][..2] == payload[pos..pos + 2];
    var port := Get16(payload[pos..pos + 2]);
    if streamId == 0 || CStr(host.value) == [] || port == 0 {
      return None;
    }
    m := Some(SocksOpen(streamId, host.value, port));
  }

  lemma {:induction false} ShortOpenRefused(payload: seq<byte>)
    requires |payload| < 8
    ensures ParseSocksOpen(payload).None?
  {
    if ParseSocksOpen(payload).Some? {
      SocksOpenExact(payload, ParseSocksOpen(payload).value);
    }
  }

  method DecodeSocksData(payload: seq<byte>) returns (m: Option<SocksData>)
    ensures m == ParseSocksData(payload)
  {
    if |payload| <= SOCKS_DATA_OVERHEAD || |payload| > PAYLOAD_MAX_SOCKS {
      return None;
    }
    var streamId := Get32(payload[..4]);
    if streamId == 0 {
      return None;
    }
    m := Some(SocksData(streamId, payload[SOCKS_DATA_OVERHEAD..]));
  }

  method DecodeSocksClose(payload: seq<byte>) returns (m: Option<SocksClose>)
    ensures m == ParseSocksClose(payload)
  {
    if |payload| != SOCKS_CLOSE_BASE_SIZE && |payload| != SOCKS_CLOSE_REASON_SIZE {
      return None;
    }
    var streamId := Get32(payload[..4]);
    var reason, flags := REASON_REMOTE_CLOSED, 0;
    if |payload| == SOCKS_CLOSE_REASON_SIZE {
      reason := Get16(payload[4..6]);
      flags := Get16(payload[6..8]);
      assert payload[4..][..2] == payload[4..6] && payload[4..][2..] == payload[6..8];
    }
    m := if streamId == 0 then None else Some(SocksClose(streamId, reason, flags));
  }

  /** The record is cleared first, so a payload that ends after the flags leaves the last three strings empty. */
  method DecodeConfigPush(payload: seq<byte>) returns (m: Option<ConfigPush>)
    ensures m == ParseConfig(payload)
  {
    if |payload| < 4 + 4 + 3 + 2 + 2 + 4 {
      ShortConfigRefused(payload);
      return None;
    }
    var version, networkId := Get32(payload[..4]), Get32(payload[4..8]);
    var tap, socks, direct := payload[8], payload[9], payload[10];
    SwitchesAt(payload);
    var names, pos := DecodeConfigNames(payload, 11);
    if names.None? || pos + 2 + 2 + 4 > |payload| {
      return None;
    }
    NumbersAt(payload, pos);
    var mtu, port := Get16(payload[pos..pos + 2]), Get16(payload[pos + 2..pos + 4]);
    var flags := Get32(payload[pos + 4..pos + 8]);
    if networkId == 0 || mtu < MIN_MTU || mtu > MAX_MTU {
      return None;
    }
    var tail := DecodeConfigTail(payload, pos + 8);
    if tail.None? {
      return None;
    }
    m := Some(ConfigPush(version, networkId, tap, socks, direct, names.value.0, names.value.1, mtu, port, flags,
                         tail.value.0, tail.value.1, tail.value.2));
  }

  method DecodeConfigNames(payload: seq<byte>, pos: nat) returns (names: Option<(Text, Text)>, next: nat)
    requires pos <= |payload|
    ensures pos <= next <= |payload|
    ensures match ParseNames(payload[pos..])
      case None => names == None
      case Some(r) => names == Some((r.0, r.1)) && payload[next..] == r.2
  {
    var tapName, pos1 := ReadString(payload, pos, TAP_NAME_MAX);
    if tapName.None? {
      return None, pos1;
    }
    var bridgeName, pos2 := ReadString(payload, pos1, BRIDGE_NAME_MAX);
    next := pos2;
    names := if bridgeName.None? then None else Some((tapName.value, bridgeName.value));
  }

  method DecodeConfigTail(payload: seq<byte>, pos: nat) returns (tail: Option<(Text, Text, Text)>)
    requires pos <= |payload|
    ensures tail == ParseTail(payload[pos..])
  {
    if pos == |payload| {
      return Some(([], [], []));
    }
    var mode, pos1 := ReadString(payload, pos, DIRECT_MODE_MAX);
    if mode.None? {
      return None;
    }
    var addr, pos2 := ReadString(payload, pos1, DIRECT_ADDR_MAX);
    if addr.None? {
      return None;
    }
    var token, pos3 := ReadString(payload, pos2, DIRECT_TOKEN_TEXT_MAX);
    if token.None? || pos3 != |payload| {
      return None;
    }
    tail := Some((mode.value, addr.value, token.value));
  }

  lemma {:induction false} SwitchesAt(b: seq<byte>)
    requires |b| >= 11
    ensures ParseSwitches(b) == Some((Get32(b[..4]), Get32(b[4..8]), b[8], b[9], b[10], b[11..]))
  {
    assert b[4..][..4] == b[4..8] && b[4..][4..] == b[8..] && b[8..][3..] == b[11..];
  }

  lemma {:induction false} NumbersAt(b: seq<byte>, pos: nat)
    requires pos + 8 <= |b|
    ensures ParseNumbers(b[pos..])
      == Some((Get16(b[pos..pos + 2]), Get16(b[pos + 2..pos + 4]), Get32(b[pos + 4..pos + 8]), b[pos + 8..]))
  {
    assert b[pos..][..2] == b[pos..pos + 2] && b[pos..][2..] == b[pos + 2..];
    assert b[pos + 2..][..2] == b[pos + 2..pos + 4] && b[pos + 2..][2..] == b[pos + 4..];
    assert b[pos + 4..][..4] == b[pos + 4..pos + 8] && b[pos + 4..][4..] == b[pos + 8..];
  }

  lemma {:induction false} ShortConfigRefused(payload: seq<byte>)
    requires |payload| < 19
    ensures ParseConfig(payload).None?
  {
    if ParseConfig(payload).Some? {
      ConfigExact(payload, ParseConfig(payload).value);
    }
  }
}
