/** Every payload format octet by octet: which payloads a decoder accepts, and where each field lies. */
module WireOctets {
  import opened Bytes
  import opened OctetMeaning
  import opened Options
  import opened Wire

  /** HELLO: role, counted version text below 64 octets, features, nonce of 16 octets. */
  lemma {:induction false} HelloOctets(b: seq<byte>)
    ensures ParseHello(b)
      == if !(1 <= |b| && TextFits(b, 1, 64) && |b| == 23 + U16At(b, 1)) then None
         else
           var n := U16At(b, 1);
           Some(Hello(b[0], b[3..3 + n], U32At(b, 3 + n), b[7 + n..]))
  {
    hide U16At, U32At;
    if |b| >= 1 {
      assert b[1..] == b[1..][0..];
      TakeStrAt(b, 1, 64);
      if TextFits(b, 1, 64) {
        Take32At(b, 3 + U16At(b, 1));
      }
    }
  }

  /** AUTH_NODE: counted id below 128 octets, nonce of 16, digest of 32. */
  lemma {:induction false} AuthNodeOctets(b: seq<byte>)
    ensures ParseAuthNode(b)
      == if !(TextFits(b, 0, 128) && |b| == 50 + U16At(b, 0)) then None
         else
           var n := U16At(b, 0);
           Some(AuthNode(b[2..2 + n], b[2 + n..18 + n], b[18 + n..]))
  {
    hide U16At;
    assert b[0..] == b;
    TakeStrAt(b, 0, 128);
    if TextFits(b, 0, 128) && |b| == 50 + U16At(b, 0) {
      Cut(b, 2 + U16At(b, 0), 16);
    }
  }

  /** AUTH_TAP: counted name and password below 512 octets each, network, nonce. */
  lemma {:induction false} AuthTapOctets(b: seq<byte>)
    ensures ParseAuthTap(b)
      == if !TextFits(b, 0, 512) then None
         else
           var i := 2 + U16At(b, 0);
           if !(TextFits(b, i, 512) && |b| == i + 22 + U16At(b, i)) then None
           else
             var j := i + 2 + U16At(b, i);
             Some(AuthTap(b[2..i], b[i + 2..j], U32At(b, j), b[j + 4..]))
  {
    hide U16At, U32At;
    assert b[0..] == b;
    TakeStrAt(b, 0, 512);
    if TextFits(b, 0, 512) {
      var i := 2 + U16At(b, 0);
      TakeStrAt(b, i, 512);
      if TextFits(b, i, 512) {
        Take32At(b, i + 2 + U16At(b, i));
      }
    }
  }

  /** AUTH_OK: twenty octets, the session first, then the network, the time and the features. */
  lemma {:induction false} AuthOkOctets(b: seq<byte>)
    ensures ParseAuthOk(b)
      == if |b| != 20 then None else Some(AuthOk(U32At(b, 0), U32At(b, 4), U64At(b, 8), U32At(b, 16)))
  {
    hide U64At, U32At;
    assert b[0..] == b;
    Take32At(b, 0);
    if |b| >= 4 {
      Take32At(b, 4);
    }
    if |b| >= 8 {
      Take64At(b, 8);
    }
    if |b| >= 16 {
      Take32At(b, 16);
    }
  }

  /** TAP_FRAME: network, counted frame of at least 14 octets, nothing behind it. */
  lemma {:induction false} TapFrameOctets(b: seq<byte>)
    ensures ParseTapFrame(b)
      == if !(6 <= |b| && U16At(b, 4) >= 14 && |b| == 6 + U16At(b, 4)) then None else Some(TapFrame(U32At(b, 0), b[6..]))
  {
    hide U16At, U32At;
    assert b[0..] == b;
    Take32At(b, 0);
    if |b| >= 4 {
      Take16At(b, 4);
    }
  }

  /** SOCKS_STREAM_OPEN: stream, counted host below 256 octets that does not begin with a NUL, port; none of them zero or empty. */
  lemma {:induction false} SocksOpenOctets(b: seq<byte>)
    ensures ParseSocksOpen(b)
      == if !(4 <= |b| && TextFits(b, 4, 256) && |b| == 8 + U16At(b, 4)) then None
         else
           var n := U16At(b, 4);
           if U32At(b, 0) == 0 || n == 0 || b[6] == 0 || U16At(b, 6 + n) == 0 then None
           else Some(SocksOpen(U32At(b, 0), b[6..6 + n], U16At(b, 6 + n)))
  {
    hide U16At, U32At;
    assert b[0..] == b;
    Take32At(b, 0);
    if |b| >= 4 {
      TakeStrAt(b, 4, 256);
      if TextFits(b, 4, 256) {
        var n := U16At(b, 4);
        Take16At(b, 6 + n);
        EmptyText(b[6..6 + n]);
      }
    }
  }

  lemma {:induction false} EmptyText(t: Text)
    ensures CStr(t) == [] <==> t == [] || t[0] == 0
  {
  }

  /** SOCKS_STREAM_DATA: stream and at least one octet, 16384 octets in all at most. */
  lemma {:induction false} SocksDataOctets(b: seq<byte>)
    ensures ParseSocksData(b)
      == if 4 < |b| <= 16384 && U32At(b, 0) != 0 then Some(SocksData(U32At(b, 0), b[4..])) else None
  {
    hide U32At;
    assert b[0..] == b;
    Take32At(b, 0);
  }

  /** SOCKS_STREAM_CLOSE: stream, reason and flags, or the stream alone for reason 2 and no flags. */
  lemma {:induction false} SocksCloseOctets(b: seq<byte>)
    ensures ParseSocksClose(b)
      == if (|b| != 4 && |b| != 8) || U32At(b, 0) == 0 then None
         else if |b| == 4 then Some(SocksClose(U32At(b, 0), 2, 0))
         else Some(SocksClose(U32At(b, 0), U16At(b, 4), U16At(b, 6)))
  {
    hide U16At, U32At;
    assert b[0..] == b;
    Take32At(b, 0);
    if |b| >= 4 {
      Take16At(b, 4);
    }
    if |b| >= 6 {
      Take16At(b, 6);
    }
  }

  // -------------------------------------------------------------------------
  // CONFIG_PUSH
  // -------------------------------------------------------------------------

  /** The three counted texts at the end, below 32, 256 and 1024 octets; or nothing at all. */
  function TailAt(b: seq<byte>, i: nat): Option<(Text, Text, Text)>
    requires i <= |b|
  {
    if i == |b| then Some(([], [], []))
    else if !TextFits(b, i, 32) then None
    else
      var j := i + 2 + U16At(b, i);
      if !TextFits(b, j, 256) then None
      else
        var k := j + 2 + U16At(b, j);
        if !TextFits(b, k, 1024) || |b| != k + 2 + U16At(b, k) then None
        else Some((b[i + 2..j], b[j + 2..k], b[k + 2..]))
  }

  lemma {:induction false} LastTextAt(b: seq<byte>, i: nat, cap: nat)
    requires i <= |b|
    ensures var r := TakeStr(b[i..], cap);
      && (r.Some? <==> TextFits(b, i, cap))
      && (r.Some? ==> (r.value.1 == [] <==> |b| == i + 2 + U16At(b, i)))
      && (r.Some? && r.value.1 == [] ==> r.value.0 == b[i + 2..])
  {
    TakeStrAt(b, i, cap);
    if TextFits(b, i, cap) && |b| == i + 2 + U16At(b, i) {
      assert b[i + 2..|b|] == b[i + 2..];
    }
  }

  lemma {:induction false} TailOctets(b: seq<byte>, i: nat)
    requires i <= |b|
    ensures ParseTail(b[i..]) == TailAt(b, i)
  {
    hide U16At, TakeStr;
    if i < |b| {
      TakeStrAt(b, i, 32);
      if TextFits(b, i, 32) {
        var j := i + 2 + U16At(b, i);
        TakeStrAt(b, j, 256);
        if TextFits(b, j, 256) {
          LastTextAt(b, j + 2 + U16At(b, j), 1024);
        }
      }
    }
  }

  /**
   * CONFIG_PUSH: version, network, three switches, two counted names below 64
   * octets, mtu, port, flags, and perhaps three texts. The network is not zero and
   * the mtu lies from 576 to 1500.
   */
  lemma {:induction false} ConfigOctets(b: seq<byte>)
    ensures ParseConfig(b)
      == if !(11 <= |b| && TextFits(b, 11, 64)) then None
         else
           var i := 13 + U16At(b, 11);
           if !TextFits(b, i, 64) then None
           else
             var j := i + 2 + U16At(b, i);
             if |b| < j + 8 || U32At(b, 4) == 0 || U16At(b, j) < 576 || U16At(b, j) > 1500 || TailAt(b, j + 8).None? then None
             else
               var tail := TailAt(b, j + 8).value;
               Some(ConfigPush(U32At(b, 0), U32At(b, 4), b[8], b[9], b[10], b[13..i], b[i + 2..j],
                               U16At(b, j), U16At(b, j + 2), U32At(b, j + 4), tail.0, tail.1, tail.2))
  {
    hide U16At, U32At, ParseTail, TailAt, ParseSwitches, ParseNames, ParseNumbers;
    SwitchesOctets(b);
    if |b| >= 11 {
      NamesOctets(b, 11);
      if TextFits(b, 11, 64) && TextFits(b, 13 + U16At(b, 11), 64) {
        var i := 13 + U16At(b, 11);
        var j := i + 2 + U16At(b, i);
        NumbersOctets(b, j);
        if |b| >= j + 8 {
          TailOctets(b, j + 8);
        }
      }
    }
  }

  lemma {:induction false} SwitchesOctets(b: seq<byte>)
    ensures ParseSwitches(b) == if |b| < 11 then None else Some((U32At(b, 0), U32At(b, 4), b[8], b[9], b[10], b[11..]))
  {
    hide U32At;
    assert b[0..] == b;
    Take32At(b, 0);
    if |b| >= 4 {
      Take32At(b, 4);
    }
    if |b| >= 11 {
      Cut(b, 8, 3);
    }
  }

  lemma {:induction false} NamesOctets(b: seq<byte>, i: nat)
    requires i <= |b|
    ensures ParseNames(b[i..])
      == if !TextFits(b, i, 64) || !TextFits(b, i + 2 + U16At(b, i), 64) then None
         else
           var j := i + 2 + U16At(b, i);
           Some((b[i + 2..j], b[j + 2..j + 2 + U16At(b, j)], b[j + 2 + U16At(b, j)..]))
  {
    hide U16At;
    TakeStrAt(b, i, 64);
    if TextFits(b, i, 64) {
      TakeStrAt(b, i + 2 + U16At(b, i), 64);
    }
  }

  lemma {:induction false} NumbersOctets(b: seq<byte>, i: nat)
    requires i <= |b|
    ensures ParseNumbers(b[i..]) == if |b| < i + 8 then None else Some((U16At(b, i), U16At(b, i + 2), U32At(b, i + 4), b[i + 8..]))
  {
    hide U16At, U32At;
    Take16At(b, i);
    if |b| >= i + 2 {
      Take16At(b, i + 2);
    }
    if |b| >= i + 4 {
      Take32At(b, i + 4);
    }
  }
}
