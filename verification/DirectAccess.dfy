/** Admitting direct clients: accepting a connection and checking the token line it presents. */
module DirectAccess {
  import opened Bytes
  import opened DirectToken
  import opened Kernel
  import opened Options
  import opened Sequences
  import opened Text
  import opened TokenCode
  import opened TokenMeaning

  /** Who this node is, for checking tokens. */
  datatype Identity = Identity(mac: Mac, key: string, nodeId: string)

  /** What a client sent starts with a line that is a valid token for this node and network. */
  predicate Admitted(me: Identity, networkId: u32, now: nat, text: string) {
    var line := TokenLine(text, TOKEN_MAX);
    line.Some? && Verify(me.mac, me.key, me.nodeId, networkId, now, line.value).Some?
  }

  /** The text begins with a whole line that holds a genuine token of these fields. */
  predicate Presents(me: Identity, networkId: u32, now: nat, text: string, raw: string, rest: string, f: Fields) {
    && text == raw + "\n" + rest
    && '\n' !in raw
    && |raw| <= 1022
    && Genuine(me.mac, me.key, me.nodeId, networkId, now, TrimEnd(UpTo(raw, NUL)), f)
  }

  /** Admitted are exactly the clients that present a genuine token in their first line. */
  lemma {:induction false} AdmittedExactly(me: Identity, networkId: u32, now: nat, text: string)
    ensures Admitted(me, networkId, now, text) <==> exists raw, rest, f :: Presents(me, networkId, now, text, raw, rest, f)
  {
    hide Genuine, Verify, TokenLine, TrimEnd, UpTo;
    if Admitted(me, networkId, now, text) {
      var raw, rest := FirstLine(text);
      var line := TrimEnd(UpTo(raw, NUL));
      var f := Verify(me.mac, me.key, me.nodeId, networkId, now, line).value;
      VerifiedIsGenuine(me.mac, me.key, me.nodeId, networkId, now, line, f);
      assert Presents(me, networkId, now, text, raw, rest, f);
    }
    if raw, rest, f :| Presents(me, networkId, now, text, raw, rest, f) {
      LineExactly(raw, rest, 1024);
      VerifiedIsGenuine(me.mac, me.key, me.nodeId, networkId, now, TrimEnd(UpTo(raw, NUL)), f);
    }
  }

  lemma {:induction false} FirstLine(text: string) returns (raw: string, rest: string)
    requires TokenLine(text, 1024).Some?
    ensures text == raw + "\n" + rest && '\n' !in raw && |raw| <= 1022
    ensures TokenLine(text, 1024) == Some(TrimEnd(UpTo(raw, NUL)))
  {
    hide TrimEnd, UpTo;
    var n := First(text, '\n');
    raw, rest := text[..n], text[n + 1..];
  }

  /**
   * Accepts one client. A descriptor is handed on exactly for a client whose
   * token is good; every other accepted connection has been closed again.
   */
  method AcceptClient(os: Os, listenFd: int, me: Identity, networkId: u32, now: nat)
    returns (ok: bool, fd: int, ghost at: int, ghost text: string)
    requires os.Valid() && listenFd in os.open
    modifies os`open, os`trace
    ensures os.Valid()
    ensures !ok ==> fd == NO_FD && os.open == old(os.open) && os.trace == old(os.trace) + [NotOpened]
    ensures ok ==> at >= 0 && at !in old(os.open) && fd == if Admitted(me, networkId, now, text) then at else NO_FD
    ensures ok && fd == NO_FD ==>
      os.open == old(os.open) && os.trace == old(os.trace) + [Opened(at), Heard(at, text), Closed(at)]
    ensures ok && fd != NO_FD ==>
      os.open == old(os.open) + {fd} && os.trace == old(os.trace) + [Opened(at), Heard(at, text)]
  {
    at, text := NO_FD, "";
    var client := os.Allocate();
    if client == NO_FD {
      return false, NO_FD, at, text;
    }
    at := client;
    var input := os.Hear(client);
    text := input;
    var admitted := CheckClient(me, networkId, now, input);
    if admitted {
      return true, client, at, text;
    }
    os.Close(client);
    assert os.open == old(os.open);
    return true, NO_FD, at, text;
  }

  method CheckClient(me: Identity, networkId: u32, now: nat, input: string) returns (admitted: bool)
    ensures admitted <==> Admitted(me, networkId, now, input)
  {
    var buf := new char[TOKEN_MAX];
    var complete := ReadTokenLine(input, buf);
    if !complete {
      return false;
    }
    var token := VerifyToken(me.mac, me.key, me.nodeId, networkId, now, TextAt(buf, 0));
    assert buf[0..] == buf[..];
    return token.Some?;
  }

  /** Accepts one client and lets it go whatever its token says. */
  method AcceptProbe(os: Os, listenFd: int, me: Identity, networkId: u32, now: nat)
    returns (ok: bool, ghost at: int, ghost text: string)
    requires os.Valid() && listenFd in os.open
    modifies os`open, os`trace
    ensures os.Valid() && os.open == old(os.open)
    ensures !ok ==> os.trace == old(os.trace) + [NotOpened]
    ensures ok ==> at >= 0 && at !in old(os.open) && os.trace == old(os.trace) + [Opened(at), Heard(at, text), Closed(at)]
  {
    var fd;
    ok, fd, at, text := AcceptClient(os, listenFd, me, networkId, now);
    if fd != NO_FD {
      os.Close(fd);
    }
  }
}
