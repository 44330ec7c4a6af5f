/**
 * The payload formats of the protocol: what every message looks like on the
 * wire, and which octets each decoder accepts as which message.
 *
 * A text field holds the octets of a C char buffer up to the counted length.
 * Encoders treat it as a C string, so they send only the part before a NUL.
 */
module Wire {
  import opened Bytes
  import opened Frame
  import opened Options
  import opened Sequences

  const VERSION_TEXT_MAX := 64
  const NODE_ID_MAX := 128
  const CONFIG_VALUE_MAX := 512
  const TAP_NAME_MAX := 64
  const BRIDGE_NAME_MAX := 64
  const DIRECT_MODE_MAX := 32
  const DIRECT_ADDR_MAX := 256
  const DIRECT_TOKEN_TEXT_MAX := 1024
  const SOCKS_HOST_MAX := 256

  const AUTH_OK_SIZE := 20
  const TAP_FRAME_OVERHEAD := 6
  const MIN_FRAME := 14
  const SOCKS_DATA_OVERHEAD := 4
  const SOCKS_CLOSE_BASE_SIZE := 4
  const SOCKS_CLOSE_REASON_SIZE := 8

  const REASON_REMOTE_CLOSED: u16 := 2
  const REASON_TARGET_CONNECT_FAILED: u16 := 3
  const REASON_RESOURCE_LIMITED: u16 := 4
  const FLAG_FIN: u16 := 1

  type Text = s: seq<byte> | |s| < 0x1_0000
  type Nonce = b: seq<byte> | |b| == 16 witness seq(16, _ => 0)
  type Sign = b: seq<byte> | |b| == 32 witness seq(32, _ => 0)

  datatype Hello = Hello(role: byte, version: Text, features: u32, nonce: Nonce)
  datatype AuthNode = AuthNode(nodeId: Text, nonce: Nonce, sign: Sign)
  datatype AuthTap = AuthTap(username: Text, password: Text, networkId: u32, nonce: Nonce)
  datatype AuthOk = AuthOk(sessionId: u32, networkId: u32, serverTime: u64, features: u32)
  datatype ConfigPush = ConfigPush(
    version: u32, networkId: u32, tapEnabled: byte, socksEnabled: byte, directEnabled: byte,
    tapName: Text, bridgeName: Text, mtu: u16, directPort: u16, flags: u32,
    directMode: Text, directAddr: Text, directToken: Text)
  datatype TapFrame = TapFrame(networkId: u32, frame: Text)
  datatype SocksOpen = SocksOpen(streamId: u32, host: Text, port: u16)
  datatype SocksData = SocksData(streamId: u32, data: seq<byte>)
  datatype SocksClose = SocksClose(streamId: u32, reason: u16, flags: u16)

  function CStr(t: Text): (c: Text)
    ensures 0 !in c && |c| <= |t|
    ensures c == t <==> 0 !in t
  {
    UpTo(t, 0)
  }

  // -------------------------------------------------------------------------
  // Fields: reading one from the front of the remaining payload
  // -------------------------------------------------------------------------

  function Counted(t: Text): seq<byte> {
    Be16(|t|) + t
  }

  function Take(b: seq<byte>, n: nat): Option<(seq<byte>, seq<byte>)> {
    if |b| < n then None else Some((b[..n], b[n..]))
  }

  function Take8(b: seq<byte>): Option<(byte, seq<byte>)> {
    if |b| < 1 then None else Some((b[0], b[1..]))
  }

  function Take16(b: seq<byte>): Option<(u16, seq<byte>)> {
    if |b| < 2 then None else Some((Get16(b[..2]), b[2..]))
  }

  function Take32(b: seq<byte>): Option<(u32, seq<byte>)> {
    if |b| < 4 then None else Some((Get32(b[..4]), b[4..]))
  }

  function Take64(b: seq<byte>): Option<(u64, seq<byte>)> {
    if |b| < 8 then None else Some((Get64(b[..8]), b[8..]))
  }

  /** A counted string that fits, with its terminator, into a buffer of size cap. */
  function TakeStr(b: seq<byte>, cap: nat): Option<(Text, seq<byte>)> {
    var (n, rest) :- Take16(b);
    if |rest| < n || n >= cap then None else Some((rest[..n], rest[n..]))
  }

  lemma {:induction false} TakeExact(b: seq<byte>, v: seq<byte>, rest: seq<byte>)
    ensures Take(b, |v|) == Some((v, rest)) <==> b == v + rest
  {
    if |b| >= |v| {
      assert b == b[..|v|] + b[|v|..];
    }
  }

  lemma {:induction false} Take8Exact(b: seq<byte>, v: byte, rest: seq<byte>)
    ensures Take8(b) == Some((v, rest)) <==> b == [v] + rest
  {
    if |b| >= 1 {
      assert b == [b[0]] + b[1..];
    }
  }

  lemma {:induction false} Take16Exact(b: seq<byte>, v: u16, rest: seq<byte>)
    ensures Take16(b) == Some((v, rest)) <==> b == Be16(v) + rest
  {
    if |b| >= 2 {
      Be16Exact(b[..2], v);
      TakeExact(b, Be16(v), rest);
    }
  }

  lemma {:induction false} Take32Exact(b: seq<byte>, v: u32, rest: seq<byte>)
    ensures Take32(b) == Some((v, rest)) <==> b == Be32(v) + rest
  {
    if |b| >= 4 {
      Be32Exact(b[..4], v);
      TakeExact(b, Be32(v), rest);
    }
  }

  lemma {:induction false} Take64Exact(b: seq<byte>, v: u64, rest: seq<byte>)
    ensures Take64(b) == Some((v, rest)) <==> b == Be64(v) + rest
  {
    if |b| >= 8 {
      Be64Exact(b[..8], v);
      TakeExact(b, Be64(v), rest);
    }
  }

  lemma {:induction false} TakeStrExact(b: seq<byte>, cap: nat, t: Text, rest: seq<byte>)
    ensures TakeStr(b, cap) == Some((t, rest)) <==> |t| < cap && b == Counted(t) + rest
  {
    Take16Exact(b, |t|, t + rest);
    assert Counted(t) + rest == Be16(|t|) + (t + rest);
    if |b| >= 2 {
      TakeExact(b[2..], t, rest);
    }
  }

  // -------------------------------------------------------------------------
  // HELLO
  // -------------------------------------------------------------------------

  function HelloLayout(m: Hello): seq<byte> {
    [m.role] + (Counted(m.version) + (Be32(m.features) + m.nonce))
  }

  function HelloC(m: Hello): Hello {
    m.(version := CStr(m.version))
  }

  function ParseHello(b: seq<byte>): Option<Hello> {
    var (role, b1) :- Take8(b);
    var (version, b2) :- TakeStr(b1, VERSION_TEXT_MAX);
    var (features, b3) :- Take32(b2);
    if |b3| != 16 then None else Some(Hello(role, version, features, b3))
  }

  /** The decoder accepts exactly the layouts of messages whose text fits its buffer. */
  lemma {:induction false} HelloExact(b: seq<byte>, m: Hello)
    ensures ParseHello(b) == Some(m) <==> |m.version| < VERSION_TEXT_MAX && b == HelloLayout(m)
  {
    var b2 := Be32(m.features) + m.nonce;
    var b1 := Counted(m.version) + b2;
    Take8Exact(b, m.role, b1);
    TakeStrExact(b1, VERSION_TEXT_MAX, m.version, b2);
    Take32Exact(b2, m.features, m.nonce);
    if ParseHello(b) == Some(m) {
      var b1' := Take8(b).value.1;
      var b2' := TakeStr(b1', VERSION_TEXT_MAX).value.1;
      Take8Exact(b, m.role, b1');
      TakeStrExact(b1', VERSION_TEXT_MAX, m.version, b2');
      Take32Exact(b2', m.features, m.nonce);
    }
  }

  /** Decoding what the encoder sends gives the message back exactly when no text is cut at a NUL or too long. */
  lemma {:induction false} HelloRoundTrip(m: Hello)
    ensures ParseHello(HelloLayout(HelloC(m))) == Some(m) <==> 0 !in m.version && |m.version| < VERSION_TEXT_MAX
  {
    HelloExact(HelloLayout(HelloC(m)), m);
    HelloExact(HelloLayout(HelloC(m)), HelloC(m));
    HelloExact(HelloLayout(m), m);
  }

  /** Encoding what was decoded gives the payload back exactly when the text holds no NUL. */
  lemma {:induction false} HelloReEncode(b: seq<byte>)
    requires ParseHello(b).Some?
    ensures HelloLayout(HelloC(ParseHello(b).value)) == b <==> 0 !in ParseHello(b).value.version
  {
    var m := ParseHello(b).value;
    HelloExact(b, m);
    HelloExact(HelloLayout(HelloC(m)), m);
    HelloExact(HelloLayout(HelloC(m)), HelloC(m));
  }

  // -------------------------------------------------------------------------
  // AUTH_NODE
  // -------------------------------------------------------------------------

  function AuthNodeLayout(m: AuthNode): seq<byte> {
    Counted(m.nodeId) + (m.nonce + m.sign)
  }

  function AuthNodeC(m: AuthNode): AuthNode {
    m.(nodeId := CStr(m.nodeId))
  }

  function ParseAuthNode(b: seq<byte>): Option<AuthNode> {
    var (nodeId, b1) :- TakeStr(b, NODE_ID_MAX);
    if |b1| != 48 then None else Some(AuthNode(nodeId, b1[..16], b1[16..]))
  }

  lemma {:induction false} AuthNodeExact(b: seq<byte>, m: AuthNode)
    ensures ParseAuthNode(b) == Some(m) <==> |m.nodeId| < NODE_ID_MAX && b == AuthNodeLayout(m)
  {
    var b1 := m.nonce + m.sign;
    TakeStrExact(b, NODE_ID_MAX, m.nodeId, b1);
    if ParseAuthNode(b) == Some(m) {
      var b1' := TakeStr(b, NODE_ID_MAX).value.1;
      TakeStrExact(b, NODE_ID_MAX, m.nodeId, b1');
      assert b1' == b1'[..16] + b1'[16..];
    }
  }

  lemma {:induction false} AuthNodeRoundTrip(m: AuthNode)
    ensures ParseAuthNode(AuthNodeLayout(AuthNodeC(m))) == Some(m) <==> 0 !in m.nodeId && |m.nodeId| < NODE_ID_MAX
  {
    AuthNodeExact(AuthNodeLayout(AuthNodeC(m)), m);
    AuthNodeExact(AuthNodeLayout(AuthNodeC(m)), AuthNodeC(m));
    AuthNodeExact(AuthNodeLayout(m), m);
  }

  lemma {:induction false} AuthNodeReEncode(b: seq<byte>)
    requires ParseAuthNode(b).Some?
    ensures AuthNodeLayout(AuthNodeC(ParseAuthNode(b).value)) == b <==> 0 !in ParseAuthNode(b).value.nodeId
  {
    var m := ParseAuthNode(b).value;
    AuthNodeExact(b, m);
    AuthNodeExact(AuthNodeLayout(AuthNodeC(m)), m);
    AuthNodeExact(AuthNodeLayout(AuthNodeC(m)), AuthNodeC(m));
  }

  // -------------------------------------------------------------------------
  // AUTH_TAP
  // -------------------------------------------------------------------------

  function AuthTapLayout(m: AuthTap): seq<byte> {
    Counted(m.username) + (Counted(m.password) + (Be32(m.networkId) + m.nonce))
  }

  function AuthTapC(m: AuthTap): AuthTap {
    m.(username := CStr(m.username), password := CStr(m.password))
  }

  ghost predicate AuthTapFits(m: AuthTap) {
    |m.username| < CONFIG_VALUE_MAX && |m.password| < CONFIG_VALUE_MAX
  }

  function ParseAuthTap(b: seq<byte>): Option<AuthTap> {
    var (username, b1) :- TakeStr(b, CONFIG_VALUE_MAX);
    var (password, b2) :- TakeStr(b1, CONFIG_VALUE_MAX);
    var (networkId, b3) :- Take32(b2);
    if |b3| != 16 then None else Some(AuthTap(username, password, networkId, b3))
  }

  lemma {:induction false} AuthTapExact(b: seq<byte>, m: AuthTap)
    ensures ParseAuthTap(b) == Some(m) <==> AuthTapFits(m) && b == AuthTapLayout(m)
  {
    var b2 := Be32(m.networkId) + m.nonce;
    var b1 := Counted(m.password) + b2;
    TakeStrExact(b, CONFIG_VALUE_MAX, m.username, b1);
    TakeStrExact(b1, CONFIG_VALUE_MAX, m.password, b2);
    Take32Exact(b2, m.networkId, m.nonce);
    if ParseAuthTap(b) == Some(m) {
      var b1' := TakeStr(b, CONFIG_VALUE_MAX).value.1;
      var b2' := TakeStr(b1', CONFIG_VALUE_MAX).value.1;
      TakeStrExact(b, CONFIG_VALUE_MAX, m.username, b1');
      TakeStrExact(b1', CONFIG_VALUE_MAX, m.password, b2');
      Take32Exact(b2', m.networkId, m.nonce);
    }
  }

  lemma {:induction false} AuthTapRoundTrip(m: AuthTap)
    ensures ParseAuthTap(AuthTapLayout(AuthTapC(m))) == Some(m)
      <==> 0 !in m.username && 0 !in m.password && AuthTapFits(m)
  {
    AuthTapExact(AuthTapLayout(AuthTapC(m)), m);
    AuthTapExact(AuthTapLayout(AuthTapC(m)), AuthTapC(m));
    AuthTapExact(AuthTapLayout(m), m);
  }

  lemma {:induction false} AuthTapReEncode(b: seq<byte>)
    requires ParseAuthTap(b).Some?
    ensures var m := ParseAuthTap(b).value;
      AuthTapLayout(AuthTapC(m)) == b <==> 0 !in m.username && 0 !in m.password
  {
    var m := ParseAuthTap(b).value;
    AuthTapExact(b, m);
    AuthTapExact(AuthTapLayout(AuthTapC(m)), m);
    AuthTapExact(AuthTapLayout(AuthTapC(m)), AuthTapC(m));
  }

  // -------------------------------------------------------------------------
  // AUTH_OK
  // -------------------------------------------------------------------------

  function AuthOkLayout(m: AuthOk): seq<byte> {
    Be32(m.sessionId) + (Be32(m.networkId) + (Be64(m.serverTime) + Be32(m.features)))
  }

  function ParseAuthOk(b: seq<byte>): Option<AuthOk> {
    var (sessionId, b1) :- Take32(b);
    var (networkId, b2) :- Take32(b1);
    var (serverTime, b3) :- Take64(b2);
    var (features, b4) :- Take32(b3);
    if b4 != [] then None else Some(AuthOk(sessionId, networkId, serverTime, features))
  }

  /** AUTH_OK is a bijection between its messages and the accepted payloads. */
  lemma {:induction false} AuthOkExact(b: seq<byte>, m: AuthOk)
    ensures ParseAuthOk(b) == Some(m) <==> b == AuthOkLayout(m)
  {
    var b3 := Be32(m.features);
    var b2 := Be64(m.serverTime) + b3;
    var b1 := Be32(m.networkId) + b2;
    Take32Exact(b, m.sessionId, b1);
    Take32Exact(b1, m.networkId, b2);
    Take64Exact(b2, m.serverTime, b3);
    Take32Exact(b3, m.features, []);
    assert b3 == b3 + [];
    if ParseAuthOk(b) == Some(m) {
      var b1' := Take32(b).value.1;
      var b2' := Take32(b1').value.1;
      var b3' := Take64(b2').value.1;
      Take32Exact(b, m.sessionId, b1');
      Take32Exact(b1', m.networkId, b2');
      Take64Exact(b2', m.serverTime, b3');
      Take32Exact(b3', m.features, []);
    }
  }

  // -------------------------------------------------------------------------
  // CONFIG_PUSH
  // -------------------------------------------------------------------------

  function ConfigTail(m: ConfigPush): seq<byte> {
    Counted(m.directMode) + (Counted(m.directAddr) + Counted(m.directToken))
  }

  function ConfigNumbers(m: ConfigPush, tail: seq<byte>): seq<byte> {
    Be16(m.mtu) + (Be16(m.directPort) + (Be32(m.flags) + tail))
  }

  function ConfigNames(m: ConfigPush, tail: seq<byte>): seq<byte> {
    Counted(m.tapName) + (Counted(m.bridgeName) + ConfigNumbers(m, tail))
  }

  /** The whole payload in front of a given tail. */
  function ConfigBody(m: ConfigPush, tail: seq<byte>): seq<byte> {
    Be32(m.version) + (Be32(m.networkId) + ([m.tapEnabled] + ([m.socksEnabled] + ([m.directEnabled] + ConfigNames(m, tail)))))
  }

  function ConfigLayout(m: ConfigPush): seq<byte> {
    ConfigBody(m, ConfigTail(m))
  }

  predicate ConfigClean(m: ConfigPush) {
    0 !in m.tapName && 0 !in m.bridgeName && 0 !in m.directMode && 0 !in m.directAddr && 0 !in m.directToken
  }

  /** What the decoder demands of a message beyond its shape. */
  predicate ConfigOk(m: ConfigPush) {
    && m.networkId != 0
    && MIN_MTU <= m.mtu <= MAX_MTU
    && |m.tapName| < TAP_NAME_MAX
    && |m.bridgeName| < BRIDGE_NAME_MAX
    && |m.directMode| < DIRECT_MODE_MAX
    && |m.directAddr| < DIRECT_ADDR_MAX
    && |m.directToken| < DIRECT_TOKEN_TEXT_MAX
  }

  function ConfigC(m: ConfigPush): (c: ConfigPush)
    ensures c == m <==> ConfigClean(m)
    ensures ConfigOk(m) ==> ConfigOk(c)
  {
    m.(tapName := CStr(m.tapName), bridgeName := CStr(m.bridgeName), directMode := CStr(m.directMode),
       directAddr := CStr(m.directAddr), directToken := CStr(m.directToken))
  }

  /** The three strings at the end, or three empty ones when the payload ends before them. */
  function ParseTail(b: seq<byte>): Option<(Text, Text, Text)> {
    if b == [] then Some(([], [], []))
    else
      var (mode, b1) :- TakeStr(b, DIRECT_MODE_MAX);
      var (addr, b2) :- TakeStr(b1, DIRECT_ADDR_MAX);
      var (token, b3) :- TakeStr(b2, DIRECT_TOKEN_TEXT_MAX);
      if b3 != [] then None else Some((mode, addr, token))
  }

  function ParseNumbers(b: seq<byte>): Option<(u16, u16, u32, seq<byte>)> {
    var (mtu, b1) :- Take16(b);
    var (port, b2) :- Take16(b1);
    var (flags, b3) :- Take32(b2);
    Some((mtu, port, flags, b3))
  }

  function ParseNames(b: seq<byte>): Option<(Text, Text, seq<byte>)> {
    var (tapName, b1) :- TakeStr(b, TAP_NAME_MAX);
    var (bridgeName, b2) :- TakeStr(b1, BRIDGE_NAME_MAX);
    Some((tapName, bridgeName, b2))
  }

  function ParseSwitches(b: seq<byte>): Option<(u32, u32, byte, byte, byte, seq<byte>)> {
    var (version, b1) :- Take32(b);
    var (networkId, b2) :- Take32(b1);
    if |b2| < 3 then None else Some((version, networkId, b2[0], b2[1], b2[2], b2[3..]))
  }

  function ParseConfig(b: seq<byte>): Option<ConfigPush> {
    var (version, networkId, tap, socks, direct, b1) :- ParseSwitches(b);
    var (tapName, bridgeName, b2) :- ParseNames(b1);
    var (mtu, port, flags, b3) :- ParseNumbers(b2);
    if networkId == 0 || mtu < MIN_MTU || mtu > MAX_MTU then None
    else
      var (mode, addr, token) :- ParseTail(b3);
      Some(ConfigPush(version, networkId, tap, socks, direct, tapName, bridgeName, mtu, port, flags, mode, addr, token))
  }

  lemma {:induction false} TailAccepted(m: ConfigPush)
    requires |m.directMode| < DIRECT_MODE_MAX && |m.directAddr| < DIRECT_ADDR_MAX && |m.directToken| < DIRECT_TOKEN_TEXT_MAX
    ensures ParseTail(ConfigTail(m)) == Some((m.directMode, m.directAddr, m.directToken))
  {
    var b2 := Counted(m.directToken);
    var b1 := Counted(m.directAddr) + b2;
    assert b2 == b2 + [];
    TakeStrExact(ConfigTail(m), DIRECT_MODE_MAX, m.directMode, b1);
    TakeStrExact(b1, DIRECT_ADDR_MAX, m.directAddr, b2);
    TakeStrExact(b2, DIRECT_TOKEN_TEXT_MAX, m.directToken, []);
  }

  lemma {:induction false} TailExact(b: seq<byte>, m: ConfigPush)
    ensures ParseTail(b) == Some((m.directMode, m.directAddr, m.directToken))
      <==> || (b == [] && m.directMode == m.directAddr == m.directToken == [])
           || (b == ConfigTail(m) && |m.directMode| < DIRECT_MODE_MAX && |m.directAddr| < DIRECT_ADDR_MAX
               && |m.directToken| < DIRECT_TOKEN_TEXT_MAX)
  {
    if b != [] && ParseTail(b) == Some((m.directMode, m.directAddr, m.directToken)) {
      var b1 := TakeStr(b, DIRECT_MODE_MAX).value.1;
      var b2 := TakeStr(b1, DIRECT_ADDR_MAX).value.1;
      TakeStrExact(b, DIRECT_MODE_MAX, m.directMode, b1);
      TakeStrExact(b1, DIRECT_ADDR_MAX, m.directAddr, b2);
      TakeStrExact(b2, DIRECT_TOKEN_TEXT_MAX, m.directToken, []);
    }
    if |m.directMode| < DIRECT_MODE_MAX && |m.directAddr| < DIRECT_ADDR_MAX && |m.directToken| < DIRECT_TOKEN_TEXT_MAX {
      TailAccepted(m);
    }
  }

  lemma {:induction false} NumbersExact(b: seq<byte>, m: ConfigPush, tail: seq<byte>)
    ensures ParseNumbers(b) == Some((m.mtu, m.directPort, m.flags, tail)) <==> b == ConfigNumbers(m, tail)
  {
    var b2 := Be32(m.flags) + tail;
    var b1 := Be16(m.directPort) + b2;
    Take16Exact(b, m.mtu, b1);
    Take16Exact(b1, m.directPort, b2);
    Take32Exact(b2, m.flags, tail);
    if ParseNumbers(b) == Some((m.mtu, m.directPort, m.flags, tail)) {
      var b1' := Take16(b).value.1;
      var b2' := Take16(b1').value.1;
      Take16Exact(b, m.mtu, b1');
      Take16Exact(b1', m.directPort, b2');
      Take32Exact(b2', m.flags, tail);
    }
  }

  lemma {:induction false} NamesExact(b: seq<byte>, m: ConfigPush, rest: seq<byte>)
    ensures ParseNames(b) == Some((m.tapName, m.bridgeName, rest))
      <==> && |m.tapName| < TAP_NAME_MAX && |m.bridgeName| < BRIDGE_NAME_MAX
           && b == Counted(m.tapName) + (Counted(m.bridgeName) + rest)
  {
    var b1 := Counted(m.bridgeName) + rest;
    TakeStrExact(b, TAP_NAME_MAX, m.tapName, b1);
    TakeStrExact(b1, BRIDGE_NAME_MAX, m.bridgeName, rest);
    if ParseNames(b) == Some((m.tapName, m.bridgeName, rest)) {
      var b1' := TakeStr(b, TAP_NAME_MAX).value.1;
      TakeStrExact(b, TAP_NAME_MAX, m.tapName, b1');
      TakeStrExact(b1', BRIDGE_NAME_MAX, m.bridgeName, rest);
    }
  }

  lemma {:induction false} SwitchesExact(b: seq<byte>, m: ConfigPush, rest: seq<byte>)
    ensures ParseSwitches(b) == Some((m.version, m.networkId, m.tapEnabled, m.socksEnabled, m.directEnabled, rest))
      <==> b == Be32(m.version) + (Be32(m.networkId) + ([m.tapEnabled] + ([m.socksEnabled] + ([m.directEnabled] + rest))))
  {
    var b2 := [m.tapEnabled] + ([m.socksEnabled] + ([m.directEnabled] + rest));
    var b1 := Be32(m.networkId) + b2;
    Take32Exact(b, m.version, b1);
    Take32Exact(b1, m.networkId, b2);
    assert b2[3..] == rest;
    if ParseSwitches(b) == Some((m.version, m.networkId, m.tapEnabled, m.socksEnabled, m.directEnabled, rest)) {
      var b1' := Take32(b).value.1;
      var b2' := Take32(b1').value.1;
      Take32Exact(b, m.version, b1');
      Take32Exact(b1', m.networkId, b2');
      assert b2' == [b2'[0]] + ([b2'[1]] + ([b2'[2]] + b2'[3..]));
    }
  }

  lemma {:induction false} ConfigBodyAccepted(m: ConfigPush, tail: seq<byte>)
    requires ConfigOk(m)
    requires ParseTail(tail) == Some((m.directMode, m.directAddr, m.directToken))
    ensures ParseConfig(ConfigBody(m, tail)) == Some(m)
  {
    SwitchesExact(ConfigBody(m, tail), m, ConfigNames(m, tail));
    NamesExact(ConfigNames(m, tail), m, ConfigNumbers(m, tail));
    NumbersExact(ConfigNumbers(m, tail), m, tail);
  }

  lemma {:induction false} ConfigPartsFound(b: seq<byte>, m: ConfigPush) returns (b1: seq<byte>, b2: seq<byte>, tail: seq<byte>)
    requires ParseConfig(b) == Some(m)
    ensures ParseSwitches(b) == Some((m.version, m.networkId, m.tapEnabled, m.socksEnabled, m.directEnabled, b1))
    ensures ParseNames(b1) == Some((m.tapName, m.bridgeName, b2))
    ensures ParseNumbers(b2) == Some((m.mtu, m.directPort, m.flags, tail))
    ensures ParseTail(tail) == Some((m.directMode, m.directAddr, m.directToken))
    ensures m.networkId != 0 && MIN_MTU <= m.mtu <= MAX_MTU
  {
    b1 := ParseSwitches(b).value.5;
    b2 := ParseNames(b1).value.2;
    tail := ParseNumbers(b2).value.3;
  }

  lemma {:induction false} ConfigBodyFound(b: seq<byte>, m: ConfigPush) returns (tail: seq<byte>)
    requires ParseConfig(b) == Some(m)
    ensures ConfigOk(m) && b == ConfigBody(m, tail)
    ensures ParseTail(tail) == Some((m.directMode, m.directAddr, m.directToken))
  {
    var b1, b2;
    b1, b2, tail := ConfigPartsFound(b, m);
    SwitchesExact(b, m, b1);
    NamesExact(b1, m, b2);
    NumbersExact(b2, m, tail);
    TailExact(tail, m);
  }

  predicate NoTail(m: ConfigPush) {
    m.directMode == m.directAddr == m.directToken == []
  }

  /** The decoder accepts exactly the layouts of acceptable messages, and the same without a tail for three empty strings. */
  lemma {:induction false} ConfigExact(b: seq<byte>, m: ConfigPush)
    ensures ParseConfig(b) == Some(m) <==> ConfigOk(m) && (b == ConfigLayout(m) || (b == ConfigBody(m, []) && NoTail(m)))
  {
    TailExact([], m);
    TailExact(ConfigTail(m), m);
    if ConfigOk(m) {
      ConfigBodyAccepted(m, ConfigTail(m));
      if NoTail(m) {
        ConfigBodyAccepted(m, []);
      }
    }
    if ParseConfig(b) == Some(m) {
      var tail := ConfigBodyFound(b, m);
      TailExact(tail, m);
    }
  }

  lemma {:induction false} ConfigRoundTrip(m: ConfigPush)
    ensures ParseConfig(ConfigLayout(ConfigC(m))) == Some(m) <==> ConfigClean(m) && ConfigOk(m)
  {
    var c := ConfigC(m);
    var b := ConfigLayout(c);
    ConfigExact(b, m);
    ConfigExact(b, c);
  }

  lemma {:induction false} ConfigBodyLength(m: ConfigPush, tail: seq<byte>)
    ensures |ConfigBody(m, tail)| == |ConfigBody(m, [])| + |tail|
  {
  }

  /** Of the accepted NUL-free payloads only those without a tail are not reproduced; the encoder adds three empty strings. */
  lemma {:induction false} ConfigReEncode(b: seq<byte>)
    requires ParseConfig(b).Some?
    ensures var m := ParseConfig(b).value;
      ConfigLayout(ConfigC(m)) == b <==> ConfigClean(m) && b != ConfigBody(m, [])
  {
    var m := ParseConfig(b).value;
    var c := ConfigC(m);
    ConfigExact(b, m);
    ConfigExact(ConfigLayout(c), c);
    ConfigBodyLength(m, ConfigTail(m));
  }

  // -------------------------------------------------------------------------
  // TAP_FRAME
  // -------------------------------------------------------------------------

  function TapFrameLayout(m: TapFrame): seq<byte> {
    Be32(m.networkId) + Counted(m.frame)
  }

  function ParseTapFrame(b: seq<byte>): Option<TapFrame> {
    var (networkId, b1) :- Take32(b);
    var (n, frame) :- Take16(b1);
    if n < MIN_FRAME || |frame| != n then None else Some(TapFrame(networkId, frame))
  }

  lemma {:induction false} TapFrameExact(b: seq<byte>, m: TapFrame)
    ensures ParseTapFrame(b) == Some(m) <==> |m.frame| >= MIN_FRAME && b == TapFrameLayout(m)
  {
    var b1 := Counted(m.frame);
    Take32Exact(b, m.networkId, b1);
    Take16Exact(b1, |m.frame|, m.frame);
    if ParseTapFrame(b) == Some(m) {
      var b1' := Take32(b).value.1;
      Take32Exact(b, m.networkId, b1');
      Take16Exact(b1', |m.frame|, m.frame);
    }
  }

  // -------------------------------------------------------------------------
  // SOCKS_STREAM_OPEN
  // -------------------------------------------------------------------------

  function SocksOpenLayout(m: SocksOpen): seq<byte> {
    Be32(m.streamId) + (Counted(m.host) + Be16(m.port))
  }

  function SocksOpenC(m: SocksOpen): SocksOpen {
    m.(host := CStr(m.host))
  }

  predicate SocksOpenOk(m: SocksOpen) {
    m.streamId != 0 && |m.host| < SOCKS_HOST_MAX && CStr(m.host) != [] && m.port != 0
  }

  function ParseSocksOpen(b: seq<byte>): Option<SocksOpen> {
    var (streamId, b1) :- Take32(b);
    var (host, b2) :- TakeStr(b1, SOCKS_HOST_MAX);
    var (port, b3) :- Take16(b2);
    if b3 != [] || streamId == 0 || CStr(host) == [] || port == 0 then None else Some(SocksOpen(streamId, host, port))
  }

  lemma {:induction false} SocksOpenExact(b: seq<byte>, m: SocksOpen)
    ensures ParseSocksOpen(b) == Some(m) <==> SocksOpenOk(m) && b == SocksOpenLayout(m)
  {
    var b2 := Be16(m.port);
    var b1 := Counted(m.host) + b2;
    assert b2 == b2 + [];
    Take32Exact(b, m.streamId, b1);
    TakeStrExact(b1, SOCKS_HOST_MAX, m.host, b2);
    Take16Exact(b2, m.port, []);
    if ParseSocksOpen(b) == Some(m) {
      var b1' := Take32(b).value.1;
      var b2' := TakeStr(b1', SOCKS_HOST_MAX).value.1;
      Take32Exact(b, m.streamId, b1');
      TakeStrExact(b1', SOCKS_HOST_MAX, m.host, b2');
      Take16Exact(b2', m.port, []);
    }
  }

  lemma {:induction false} SocksOpenRoundTrip(m: SocksOpen)
    ensures ParseSocksOpen(SocksOpenLayout(SocksOpenC(m))) == Some(m) <==> 0 !in m.host && SocksOpenOk(m)
  {
    SocksOpenExact(SocksOpenLayout(SocksOpenC(m)), m);
    SocksOpenExact(SocksOpenLayout(SocksOpenC(m)), SocksOpenC(m));
    SocksOpenExact(SocksOpenLayout(m), m);
  }

  lemma {:induction false} SocksOpenReEncode(b: seq<byte>)
    requires ParseSocksOpen(b).Some?
    ensures SocksOpenLayout(SocksOpenC(ParseSocksOpen(b).value)) == b <==> 0 !in ParseSocksOpen(b).value.host
  {
    var m := ParseSocksOpen(b).value;
    SocksOpenExact(b, m);
    SocksOpenExact(SocksOpenLayout(SocksOpenC(m)), m);
    SocksOpenExact(SocksOpenLayout(SocksOpenC(m)), SocksOpenC(m));
  }

  // -------------------------------------------------------------------------
  // SOCKS_STREAM_DATA
  // -------------------------------------------------------------------------

  function SocksDataLayout(m: SocksData): seq<byte> {
    Be32(m.streamId) + m.data
  }

  predicate SocksDataOk(m: SocksData) {
    m.streamId != 0 && 0 < |m.data| <= PAYLOAD_MAX_SOCKS - SOCKS_DATA_OVERHEAD
  }

  function ParseSocksData(b: seq<byte>): Option<SocksData> {
    if |b| > PAYLOAD_MAX_SOCKS then None
    else
      var (streamId, data) :- Take32(b);
      if data == [] || streamId == 0 then None else Some(SocksData(streamId, data))
  }

  /** The encoder and the decoder of SOCKS_STREAM_DATA are inverse without exception. */
  lemma {:induction false} SocksDataExact(b: seq<byte>, m: SocksData)
    ensures ParseSocksData(b) == Some(m) <==> SocksDataOk(m) && b == SocksDataLayout(m)
  {
    Take32Exact(b, m.streamId, m.data);
  }

  // -------------------------------------------------------------------------
  // SOCKS_STREAM_CLOSE
  // -------------------------------------------------------------------------

  function SocksCloseLayout(m: SocksClose): seq<byte> {
    Be32(m.streamId) + (Be16(m.reason) + Be16(m.flags))
  }

  /** Eight octets, or four that stand for "closed by the remote side, no flags". */
  function ParseSocksClose(b: seq<byte>): Option<SocksClose> {
    var (streamId, b1) :- Take32(b);
    if streamId == 0 then None
    else if b1 == [] then Some(SocksClose(streamId, REASON_REMOTE_CLOSED, 0))
    else
      var (reason, b2) :- Take16(b1);
      var (flags, b3) :- Take16(b2);
      if b3 != [] then None else Some(SocksClose(streamId, reason, flags))
  }

  lemma {:induction false} SocksCloseExact(b: seq<byte>, m: SocksClose)
    ensures ParseSocksClose(b) == Some(m)
      <==> && m.streamId != 0
           && (b == SocksCloseLayout(m) || (b == Be32(m.streamId) && m.reason == REASON_REMOTE_CLOSED && m.flags == 0))
  {
    var b2 := Be16(m.flags);
    var b1 := Be16(m.reason) + b2;
    assert b2 == b2 + [] && Be32(m.streamId) == Be32(m.streamId) + [];
    Take32Exact(b, m.streamId, b1);
    Take32Exact(b, m.streamId, []);
    Take16Exact(b1, m.reason, b2);
    Take16Exact(b2, m.flags, []);
    if ParseSocksClose(b) == Some(m) {
      var b1' := Take32(b).value.1;
      Take32Exact(b, m.streamId, b1');
      if b1' != [] {
        var b2' := Take16(b1').value.1;
        Take16Exact(b1', m.reason, b2');
        Take16Exact(b2', m.flags, []);
      }
    }
  }

  /** Accepted closes are reproduced exactly when they are not of the short form. */
  lemma {:induction false} SocksCloseReEncode(b: seq<byte>)
    requires ParseSocksClose(b).Some?
    ensures SocksCloseLayout(ParseSocksClose(b).value) == b <==> |b| != SOCKS_CLOSE_BASE_SIZE
    ensures |b| == SOCKS_CLOSE_BASE_SIZE ==> ParseSocksClose(b).value == SocksClose(Get32(b), REASON_REMOTE_CLOSED, 0)
  {
    SocksCloseExact(b, ParseSocksClose(b).value);
    assert b == b[..4] + b[4..];
  }
}
