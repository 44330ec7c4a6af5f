/** The opening exchange of a session: hello, authentication and configuration. */
module Handshake {
  import opened Bytes
  import opened Frame
  import opened GrowingBuffer
  import opened Kernel
  import opened OctetMeaning
  import opened Options
  import opened Sequences
  import opened Wire
  import opened WireCode
  import opened WireOctets

  const ROLE_SERVER: byte := 0
  const ROLE_NODE: byte := 1
  const PROGRAM: Text := [0x6e, 0x74, 0x61, 0x70, 0x2d, 0x62, 0x2f, 0x30, 0x2e, 0x31]
  const CONFIG_TEXT_MAX := 512
  const STEPS := 5

  /** The node's name, and the digest under its key. */
  datatype Signer = Signer(id: Text, mac: seq<byte> -> Sign)

  ghost predicate SignerOk(who: Signer) {
    0 !in who.id && |who.id| < CONFIG_TEXT_MAX
  }

  /** Everything that is chosen in an exchange: the client's nonce and the server's messages. */
  datatype Exchange = Exchange(nonce: Nonce, hello: Msg, auth: Msg, config: Msg)

  function HelloMsg(nonce: Nonce): Msg {
    Msg(MSG_HELLO, 0, HelloLayout(Hello(ROLE_NODE, PROGRAM, 0, nonce)))
  }

  function Challenge(who: Signer, server: Nonce, client: Nonce): seq<byte> {
    server + client + who.id + [VERSION]
  }

  function AuthMsg(who: Signer, server: Nonce, client: Nonce): Msg {
    Msg(MSG_AUTH_NODE, 0, AuthNodeLayout(AuthNode(who.id, client, who.mac(Challenge(who, server, client)))))
  }

  function ServerHello(x: Exchange): Option<Hello> {
    if x.hello.typ != MSG_HELLO then None else ParseHello(x.hello.payload)
  }

  function Granted(x: Exchange): Option<AuthOk> {
    if x.auth.typ != MSG_AUTH_OK then None else ParseAuthOk(x.auth.payload)
  }

  function Settings(x: Exchange): Option<ConfigPush> {
    if x.config.typ != MSG_CONFIG_PUSH then None else ParseConfig(x.config.payload)
  }

  predicate HelloOk(x: Exchange) {
    ServerHello(x).Some? && ServerHello(x).value.role == ROLE_SERVER
  }

  /** The configuration is for the granted network, which is not zero. */
  predicate SettingsOk(x: Exchange) {
    Granted(x).Some? && Settings(x).Some? && Settings(x).value.networkId == Granted(x).value.networkId
  }

  predicate Authorised(x: Exchange) {
    HelloOk(x) && Granted(x).Some? && SettingsOk(x)
  }

  function Greeting(who: Signer, fd: int, x: Exchange): (es: seq<Event>)
    ensures |es| == STEPS
  {
    [Sent(fd, HelloMsg(x.nonce)),
     Received(fd, x.hello),
     Sent(fd, AuthMsg(who, if ServerHello(x).Some? then ServerHello(x).value.nonce else x.nonce, x.nonce)),
     Received(fd, x.auth),
     Received(fd, x.config)]
  }

  /** The first n events of an exchange have happened, and every message but the last was acceptable. */
  predicate ReachedOk(x: Exchange, n: nat) {
    && n <= STEPS
    && (n > 2 ==> HelloOk(x))
    && (n > 4 ==> Granted(x).Some?)
  }

  /**
   * Why an exchange ended after n events: the next step failed (cause), or the
   * message received last was not acceptable. Only a refused authentication is 3.
   */
  ghost predicate FailedOk(who: Signer, fd: int, x: Exchange, n: nat, cause: seq<Event>, rc: int) {
    && ReachedOk(x, n)
    && (match n
        case 0 => cause == [Exhausted] || cause == [Unsent(fd, HelloMsg(x.nonce))]
        case 1 => cause == [Unheard(fd)]
        case 2 =>
          if HelloOk(x) then
            cause == [Exhausted] || cause == [Unsent(fd, AuthMsg(who, ServerHello(x).value.nonce, x.nonce))]
          else cause == []
        case 3 => cause == [Unheard(fd)]
        case 4 => cause == if Granted(x).Some? then [Unheard(fd)] else []
        case _ => cause == [] && !SettingsOk(x))
    && rc == if n == 4 && x.auth.typ == MSG_AUTH_FAIL then 3 else 1
  }

  // -------------------------------------------------------------------------
  // The same in numbers and in the terms of the decoders
  // -------------------------------------------------------------------------

  /** A server has said hello: type 1, role 0. */
  lemma {:induction false} HelloMeans(x: Exchange)
    ensures HelloOk(x) <==>
      x.hello.typ == 1 && ParseHello(x.hello.payload).Some? && ParseHello(x.hello.payload).value.role == 0
  {
    hide ParseHello;
  }

  /**
   * Authorised is an exchange with a server's hello, an AUTH_OK of type 4 and a
   * CONFIG_PUSH of type 6 for the same network, which then is not zero.
   */
  lemma {:induction false} AuthorisedMeans(x: Exchange)
    ensures Authorised(x) <==>
      && x.hello.typ == 1 && ParseHello(x.hello.payload).Some? && ParseHello(x.hello.payload).value.role == 0
      && x.auth.typ == 4 && ParseAuthOk(x.auth.payload).Some?
      && x.config.typ == 6 && ParseConfig(x.config.payload).Some?
      && ParseConfig(x.config.payload).value.networkId == ParseAuthOk(x.auth.payload).value.networkId
    ensures Authorised(x) ==> ParseAuthOk(x.auth.payload).value.networkId != 0
  {
    hide ParseHello, ParseAuthOk, ParseConfig;
    ConfigOctets(x.config.payload);
  }

  /** The node's hello: type 1, session 0, role 1, "ntap-b/0.1", no features, its nonce. */
  lemma {:induction false} HelloSent(nonce: Nonce)
    ensures var m := HelloMsg(nonce);
      && m.typ == 1 && m.session == 0
      && ParseHello(m.payload) == Some(Hello(1, [0x6e, 0x74, 0x61, 0x70, 0x2d, 0x62, 0x2f, 0x30, 0x2e, 0x31], 0, nonce))
  {
    hide ParseHello, HelloLayout;
    var h := Hello(ROLE_NODE, PROGRAM, 0, nonce);
    HelloExact(HelloLayout(h), h);
  }

  /**
   * The node's answer: type 2, session 0, its counted id, its nonce, and the digest
   * of the server's nonce, its own nonce, its id and the version 1, in that order.
   */
  lemma {:induction false} AuthSent(who: Signer, server: Nonce, client: Nonce)
    requires SignerOk(who)
    ensures var m, n := AuthMsg(who, server, client), |who.id|;
      && m.typ == 2 && m.session == 0 && |m.payload| == 50 + n
      && U16At(m.payload, 0) == n && m.payload[2..2 + n] == who.id && m.payload[2 + n..18 + n] == client
      && var c := Challenge(who, server, client);
         && m.payload[18 + n..] == who.mac(c)
         && |c| == 33 + n && c[..16] == server && c[16..32] == client && c[32..32 + n] == who.id && c[32 + n] == 1
  {
    var m, n, c := AuthMsg(who, server, client), |who.id|, Challenge(who, server, client);
    assert CStr(who.id) == who.id;
    assert m.payload == Be16(n) + (who.id + (client + who.mac(c)));
    ChallengeParts(server, client, who.id);
    hide CStr, AuthNodeLayout, Challenge;
    AnswerParts(n, who.id, client, who.mac(c));
  }

  lemma {:induction false} ChallengeParts(server: Nonce, client: Nonce, id: Text)
    ensures var c := server + client + id + [1];
      && |c| == 33 + |id| && c[..16] == server && c[16..32] == client && c[32..32 + |id|] == id && c[32 + |id|] == 1
  {
  }

  lemma {:induction false} AnswerParts(n: u16, id: Text, client: Nonce, sign: Sign)
    requires n == |id|
    ensures var b := Be16(n) + (id + (client + sign));
      |b| == 50 + n && U16At(b, 0) == n && b[2..2 + n] == id && b[2 + n..18 + n] == client && b[18 + n..] == sign
  {
    assert Be16(n) == [n / 256, n % 256];
  }

  /** How an exchange fails: refused with result 3 exactly by an AUTH_FAIL, type 5, in answer to the node. */
  lemma {:induction false} FailureMeans(who: Signer, fd: int, x: Exchange, n: nat, cause: seq<Event>, rc: int)
    requires FailedOk(who, fd, x, n, cause, rc)
    ensures n <= 5 && (rc == 3 <==> n == 4 && x.auth.typ == 5) && (rc == 3 || rc == 1)
    ensures n == 1 || n == 3 ==> cause == [Unheard(fd)]
    ensures n > 2 ==> x.hello.typ == 1 && ParseHello(x.hello.payload).Some? && ParseHello(x.hello.payload).value.role == 0
    ensures n == 2 && cause == [] ==>
      !(x.hello.typ == 1 && ParseHello(x.hello.payload).Some? && ParseHello(x.hello.payload).value.role == 0)
    ensures n == 4 ==> if x.auth.typ == 4 && ParseAuthOk(x.auth.payload).Some? then cause == [Unheard(fd)] else cause == []
    ensures n == 5 ==> cause == [] && x.auth.typ == 4 && ParseAuthOk(x.auth.payload).Some?
    ensures n == 5 && x.config.typ == 6 && ParseConfig(x.config.payload).Some? ==>
      ParseConfig(x.config.payload).value.networkId != ParseAuthOk(x.auth.payload).value.networkId
  {
    hide ParseHello, ParseAuthOk, ParseConfig, HelloMsg, AuthMsg;
  }

  lemma {:induction false} ProgramIsPlain()
    ensures UpTo(PROGRAM, 0) == PROGRAM
  {
    hide UpTo;
    assert 0 !in PROGRAM;
  }

  lemma {:induction false} HelloSize(nonce: Nonce)
    ensures |HelloLayout(Hello(ROLE_NODE, PROGRAM, 0, nonce))| <= PAYLOAD_MAX_CONTROL
  {
  }

  lemma {:induction false} AuthSize(who: Signer, nonce: Nonce, sign: Sign)
    requires SignerOk(who)
    ensures |AuthNodeLayout(AuthNode(who.id, nonce, sign))| <= PAYLOAD_MAX_CONTROL
  {
  }

  method SendHello(os: Os, fd: int, nonce: Nonce) returns (ok: bool)
    requires os.Valid() && fd in os.open
    modifies os`trace
    ensures os.Valid()
    ensures if ok then os.trace == old(os.trace) + [Sent(fd, HelloMsg(nonce))]
            else os.trace == old(os.trace) + [Exhausted] || os.trace == old(os.trace) + [Unsent(fd, HelloMsg(nonce))]
  {
    hide Os.Valid, HelloLayout, UpTo, OpenAfter, Disciplined, Provided;
    var out := new byte[PAYLOAD_MAX_CONTROL];
    ProgramIsPlain();
    var memory := os.Answers(5);
    HelloSize(nonce);
    var program := PROGRAM;
    hide PROGRAM;
    var n := EncodeHello(out, ROLE_NODE, program, 0, nonce, memory);
    if n.None? {
      os.NoteExhausted();
      return false;
    }
    assert out[..n.value] == HelloLayout(Hello(ROLE_NODE, PROGRAM, 0, nonce));
    ok := os.SendMsg(fd, Msg(MSG_HELLO, 0, out[..n.value]));
  }

  function SignSizes(who: Signer): seq<nat> {
    [16, 16, |who.id|, 1]
  }

  /** Puts the challenge together and signs it; fails only without memory. */
  method SignAuth(who: Signer, server: Nonce, client: Nonce, memory: seq<bool>) returns (sign: Option<Sign>)
    requires SignerOk(who) && |memory| == |SignSizes(who)|
    ensures sign == if Provided(SignSizes(who), memory) then Some(who.mac(Challenge(who, server, client))) else None
  {
    ghost var sizes := SignSizes(who);
    TotalOfFew(sizes);
    hide Filled, Provided, Buffer.Valid, Total;
    var buf := NewBuffer(sizes, memory);
    var ok;
    ghost var done: seq<byte>;
    ok, done := AppendChallenge(buf, who, server, client, memory, sizes);
    if !ok {
      return None;
    }
    FilledAll(buf, sizes, memory, done);
    BufferHolds(buf);
    sign := Some(who.mac(buf.data[..buf.len]));
  }

  method AppendChallenge(buf: Buffer, who: Signer, server: Nonce, client: Nonce, memory: seq<bool>, ghost sizes: seq<nat>)
    returns (ok: bool, ghost done: seq<byte>)
    requires sizes == SignSizes(who) && Filled(buf, sizes, 0, memory, [])
    modifies buf, buf.data
    ensures buf.data == old(buf.data) || fresh(buf.data)
    ensures if ok then Filled(buf, sizes, 4, memory, done) && done == Challenge(who, server, client)
            else !Provided(sizes, memory)
  {
    hide Filled, Provided;
    ok, done := AppendAt(buf, server, 0, memory, sizes, []);
    if !ok { return; }
    ok, done := AppendAt(buf, client, 1, memory, sizes, done);
    if !ok { return; }
    ok, done := AppendAt(buf, who.id, 2, memory, sizes, done);
    if !ok { return; }
    ok, done := AppendAt(buf, [VERSION], 3, memory, sizes, done);
    assert [] + server == server;
  }

  lemma BufferHolds(buf: Buffer)
    requires buf.Valid()
    ensures buf.len <= buf.data.Length && buf.data[..buf.len] == buf.Contents
  {
  }

  method SendAuth(os: Os, fd: int, who: Signer, server: Nonce, client: Nonce) returns (ok: bool)
    requires os.Valid() && fd in os.open && SignerOk(who)
    modifies os`trace
    ensures os.Valid()
    ensures var m := AuthMsg(who, server, client);
      if ok then os.trace == old(os.trace) + [Sent(fd, m)]
      else os.trace == old(os.trace) + [Exhausted] || os.trace == old(os.trace) + [Unsent(fd, m)]
  {
    hide Os.Valid, AuthNodeLayout, Provided;
    var memory := os.Answers(4);
    var sign := SignAuth(who, server, client, memory);
    if sign.None? {
      os.NoteExhausted();
      return false;
    }
    AuthSize(who, client, sign.value);
    var out := new byte[PAYLOAD_MAX_CONTROL];
    memory := os.Answers(4);
    var n := EncodeAuthNode(out, who.id, client, sign.value, memory);
    assert CStr(who.id) == who.id;
    if n.None? {
      os.NoteExhausted();
      return false;
    }
    assert out[..n.value] == AuthNodeLayout(AuthNode(who.id, client, sign.value));
    ok := os.SendMsg(fd, Msg(MSG_AUTH_NODE, 0, out[..n.value]));
  }

  /** Runs the exchange. n events of it happen: all five if it succeeds. */
  method Greet(os: Os, fd: int, who: Signer)
    returns (granted: Option<(AuthOk, ConfigPush)>, rc: int, ghost x: Exchange, ghost n: nat, ghost cause: seq<Event>)
    requires os.Valid() && fd in os.open && SignerOk(who)
    modifies os`trace
    ensures os.Valid() && n <= STEPS && os.trace == old(os.trace) + Greeting(who, fd, x)[..n] + cause
    ensures granted.Some? ==> n == STEPS && cause == [] && Authorised(x) && granted.value == (Granted(x).value, Settings(x).value)
    ensures granted.None? ==> FailedOk(who, fd, x, n, cause, rc)
    ensures n > 2 ==> x.hello.typ == 1 && ParseHello(x.hello.payload).Some? && ParseHello(x.hello.payload).value.role == 0
    ensures granted.Some? ==>
      && x.auth.typ == 4 && ParseAuthOk(x.auth.payload) == Some(granted.value.0)
      && x.config.typ == 6 && ParseConfig(x.config.payload) == Some(granted.value.1)
      && granted.value.1.networkId == granted.value.0.networkId != 0
    ensures granted.None? ==> (rc == 3 <==> n == 4 && x.auth.typ == 5)
  {
    hide Os.Valid, ParseHello, ParseAuthOk, ParseConfig, Granted, Settings, Authorised, FailedOk, Greeting;
    granted, rc, x, n, cause := Talk(os, fd, who);
    if granted.Some? {
      AuthorisedMeans(x);
      GrantedMeans(x);
    } else {
      FailureMeans(who, fd, x, n, cause, rc);
    }
  }

  method Talk(os: Os, fd: int, who: Signer)
    returns (granted: Option<(AuthOk, ConfigPush)>, rc: int, ghost x: Exchange, ghost n: nat, ghost cause: seq<Event>)
    requires os.Valid() && fd in os.open && SignerOk(who)
    modifies os`trace
    ensures os.Valid() && n <= STEPS && os.trace == old(os.trace) + Greeting(who, fd, x)[..n] + cause
    ensures granted.Some? ==> n == STEPS && cause == [] && Authorised(x) && granted.value == (Granted(x).value, Settings(x).value)
    ensures granted.None? ==> FailedOk(who, fd, x, n, cause, rc)
  {
    hide Os.Valid, ParseHello, HelloMsg, AuthMsg, Receivable, Granted, Settings;
    ghost var none := Msg(0, 0, []);
    var nonce: Nonce := *;
    granted, rc, x, n, cause := None, 1, Exchange(nonce, none, none, none), 0, [];
    var random := os.Randomise();
    if !random {
      cause := [Exhausted];
      return;
    }
    var ok := SendHello(os, fd, nonce);
    if !ok {
      cause := os.trace[|old(os.trace)|..];
      return;
    }
    n := 1;
    var hello := os.RecvMsg(fd, PAYLOAD_MAX_CONTROL);
    if hello.None? {
      cause := [Unheard(fd)];
      return;
    }
    n, x := 2, x.(hello := hello.value);
    assert os.trace == old(os.trace) + [Sent(fd, HelloMsg(nonce)), Received(fd, hello.value)];
    if hello.value.typ != MSG_HELLO {
      return;
    }
    var server := DecodeHello(hello.value.payload);
    if server.None? || server.value.role != ROLE_SERVER {
      return;
    }
    granted, rc, x, n, cause := Authenticate(os, fd, who, server.value.nonce, nonce, x);
    GreetingJoined(who, fd, x, n);
    assert os.trace == old(os.trace) + (Greeting(who, fd, x)[..2] + Greeting(who, fd, x)[2..n]) + cause;
  }

  lemma {:induction false} GrantedMeans(x: Exchange)
    requires Authorised(x)
    ensures Granted(x).Some? && Granted(x) == ParseAuthOk(x.auth.payload)
    ensures Settings(x).Some? && Settings(x) == ParseConfig(x.config.payload)
    ensures 576 <= Settings(x).value.mtu <= 1500
  {
    hide ParseAuthOk, ParseConfig;
    ConfigOctets(x.config.payload);
  }

  lemma {:induction false} GreetingJoined(who: Signer, fd: int, x: Exchange, n: nat)
    requires 2 <= n <= STEPS
    ensures Greeting(who, fd, x)[..n] == Greeting(who, fd, x)[..2] + Greeting(who, fd, x)[2..n]
    ensures Greeting(who, fd, x)[..2] == [Sent(fd, HelloMsg(x.nonce)), Received(fd, x.hello)]
  {
  }

  lemma {:induction false} GreetingRest(who: Signer, fd: int, x: Exchange, server: Nonce)
    requires HelloOk(x) && ServerHello(x).value.nonce == server
    ensures var g := Greeting(who, fd, x);
      && g[2..2] == [] && g[2..3] == [Sent(fd, AuthMsg(who, server, x.nonce))]
      && g[2..4] == g[2..3] + [Received(fd, x.auth)] && g[2..5] == g[2..4] + [Received(fd, x.config)]
  {
    hide AuthMsg, HelloMsg;
  }

  /** The part after the server's hello. */
  method Authenticate(os: Os, fd: int, who: Signer, server: Nonce, nonce: Nonce, ghost x0: Exchange)
    returns (granted: Option<(AuthOk, ConfigPush)>, rc: int, ghost x: Exchange, ghost n: nat, ghost cause: seq<Event>)
    requires os.Valid() && fd in os.open && SignerOk(who)
    requires HelloOk(x0) && ServerHello(x0).value.nonce == server && x0.nonce == nonce
    modifies os`trace
    ensures os.Valid() && 2 <= n <= STEPS && os.trace == old(os.trace) + Greeting(who, fd, x)[2..n] + cause
    ensures x.nonce == x0.nonce && x.hello == x0.hello
    ensures granted.Some? ==> n == STEPS && cause == [] && Authorised(x) && granted.value == (Granted(x).value, Settings(x).value)
    ensures granted.None? ==> FailedOk(who, fd, x, n, cause, rc)
  {
    hide Os.Valid, ParseHello, ParseAuthOk, ParseConfig, HelloMsg, AuthMsg, Receivable, Greeting;
    GreetingRest(who, fd, x0, server);
    granted, rc, x, n, cause := None, 1, x0, 2, [];
    var ok := SendAuth(os, fd, who, server, nonce);
    if !ok {
      cause := os.trace[|old(os.trace)|..];
      return;
    }
    n := 3;
    var auth := os.RecvMsg(fd, PAYLOAD_MAX_CONTROL);
    if auth.None? {
      cause := [Unheard(fd)];
      return;
    }
    n, x := 4, x.(auth := auth.value);
    GreetingRest(who, fd, x, server);
    if auth.value.typ == MSG_AUTH_FAIL {
      rc := 3;
      return;
    }
    if auth.value.typ != MSG_AUTH_OK {
      return;
    }
    var authOk := DecodeAuthOk(auth.value.payload);
    if authOk.None? {
      return;
    }
    var config := os.RecvMsg(fd, PAYLOAD_MAX_CONTROL);
    if config.None? {
      cause := [Unheard(fd)];
      return;
    }
    n, x := 5, x.(config := config.value);
    GreetingRest(who, fd, x, server);
    if config.value.typ != MSG_CONFIG_PUSH {
      return;
    }
    var settings := DecodeConfigPush(config.value.payload);
    if settings.None? || settings.value.networkId != authOk.value.networkId {
      return;
    }
    granted := Some((authOk.value, settings.value));
  }
}
