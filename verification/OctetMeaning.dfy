/** Headers, messages and payloads octet by octet, in numbers: what the formats of the other modules amount to. */
module OctetMeaning {
  import opened Bytes
  import opened Frame
  import opened Options
  import opened Wire

  function U16At(b: seq<byte>, i: nat): u16
    requires i + 2 <= |b|
  {
    b[i] as int * 256 + b[i + 1]
  }

  function U32At(b: seq<byte>, i: nat): u32
    requires i + 4 <= |b|
  {
    b[i] as int * 16777216 + b[i + 1] as int * 65536 + b[i + 2] as int * 256 + b[i + 3]
  }

  function U64At(b: seq<byte>, i: nat): u64
    requires i + 8 <= |b|
  {
    U32At(b, i) as int * 4294967296 + U32At(b, i + 4)
  }

  // -------------------------------------------------------------------------
  // Reading at a position
  // -------------------------------------------------------------------------

  lemma {:induction false} Get16At(b: seq<byte>, i: nat)
    requires i + 2 <= |b|
    ensures Get16(b[i..i + 2]) == U16At(b, i)
  {
  }

  lemma {:induction false} Get32At(b: seq<byte>, i: nat)
    requires i + 4 <= |b|
    ensures Get32(b[i..i + 4]) == U32At(b, i)
  {
    var v := b[i..i + 4];
    assert v[..2] == [b[i], b[i + 1]] && v[2..] == [b[i + 2], b[i + 3]];
  }

  lemma {:induction false} Get64At(b: seq<byte>, i: nat)
    requires i + 8 <= |b|
    ensures Get64(b[i..i + 8]) == U64At(b, i)
  {
    var v := b[i..i + 8];
    assert v[..4] == b[i..i + 4] && v[4..] == b[i + 4..i + 8];
    Get32At(b, i);
    Get32At(b, i + 4);
  }

  lemma {:induction false} Cut(b: seq<byte>, i: nat, n: nat)
    requires i + n <= |b|
    ensures b[i..][..n] == b[i..i + n] && b[i..][n..] == b[i + n..]
  {
  }

  lemma {:induction false} Take16At(b: seq<byte>, i: nat)
    requires i <= |b|
    ensures Take16(b[i..]) == if |b| < i + 2 then None else Some((U16At(b, i), b[i + 2..]))
  {
    if |b| >= i + 2 {
      Cut(b, i, 2);
      Get16At(b, i);
    }
  }

  lemma {:induction false} Take32At(b: seq<byte>, i: nat)
    requires i <= |b|
    ensures Take32(b[i..]) == if |b| < i + 4 then None else Some((U32At(b, i), b[i + 4..]))
  {
    if |b| >= i + 4 {
      Cut(b, i, 4);
      Get32At(b, i);
    }
  }

  lemma {:induction false} Take64At(b: seq<byte>, i: nat)
    requires i <= |b|
    ensures Take64(b[i..]) == if |b| < i + 8 then None else Some((U64At(b, i), b[i + 8..]))
  {
    if |b| >= i + 8 {
      Cut(b, i, 8);
      Get64At(b, i);
    }
  }

  /** There is a counted text of less than cap octets at a position. */
  predicate TextFits(b: seq<byte>, i: nat, cap: nat) {
    i + 2 <= |b| && U16At(b, i) < cap && i + 2 + U16At(b, i) <= |b|
  }

  lemma {:induction false} TakeStrAt(b: seq<byte>, i: nat, cap: nat)
    requires i <= |b|
    ensures TakeStr(b[i..], cap)
      == if !TextFits(b, i, cap) then None
         else Some((b[i + 2..i + 2 + U16At(b, i)], b[i + 2 + U16At(b, i)..]))
  {
    Take16At(b, i);
    if TextFits(b, i, cap) {
      Cut(b, i + 2, U16At(b, i));
    }
  }

  // -------------------------------------------------------------------------
  // Headers and messages
  // -------------------------------------------------------------------------

  /** A good header: "NTAP", version 1, a type from 1 to 14. */
  predicate GoodHeader(s: seq<byte>) {
    && |s| >= 16
    && s[0] == 0x4e && s[1] == 0x54 && s[2] == 0x41 && s[3] == 0x50 && s[4] == 1 && 1 <= s[5] <= 14
  }

  /** The most that a receiver takes for a type. */
  function PayloadLimit(typ: byte): nat {
    if typ == 7 then 1432 else if typ == 12 || typ == 13 || typ == 14 then 16384 else 65536
  }

  lemma {:induction false} HdrOfOctets(s: seq<byte>)
    requires |s| >= 16
    ensures var h := HdrOf(s[..16]);
      && h.magic == U32At(s, 0) && h.version == s[4] && h.typ == s[5] && h.flags == U16At(s, 6)
      && h.session == U32At(s, 8) && h.length == U32At(s, 12)
  {
    var b := s[..16];
    assert b[..4] == s[0..4] && b[6..8] == s[6..8] && b[8..12] == s[8..12] && b[12..] == s[12..16];
    Get32At(s, 0);
    Get16At(s, 6);
    Get32At(s, 8);
    Get32At(s, 12);
  }

  lemma {:induction false} MagicOctets(s: seq<byte>)
    requires |s| >= 4
    ensures U32At(s, 0) == 0x4e544150 <==> s[0] == 0x4e && s[1] == 0x54 && s[2] == 0x41 && s[3] == 0x50
  {
  }

  /** Which header is good, and what is wrong with another one: the magic number first, then the version, then the type. */
  lemma {:induction false} CheckOctets(s: seq<byte>)
    requires |s| >= 16
    ensures var h := HdrOf(s[..16]);
      && (Check(h) == Good <==> GoodHeader(s))
      && (Check(h) == BadMagic <==> s[..4] != [0x4e, 0x54, 0x41, 0x50])
      && (Check(h) == BadVersion <==> s[..4] == [0x4e, 0x54, 0x41, 0x50] && s[4] != 1)
      && (Check(h) == BadType <==> s[..4] == [0x4e, 0x54, 0x41, 0x50] && s[4] == 1 && !(1 <= s[5] <= 14))
  {
    HdrOfOctets(s);
    MagicOctets(s);
    var t := s[..4];
    assert t == [t[0], t[1], t[2], t[3]];
    hide U32At, U16At;
  }

  /** How long a payload may be: for TAP frames 32 octets more than the mtu, which counts as 1400 outside 576 to 1500. */
  lemma {:induction false} LengthOctets(typ: byte, length: nat, mtu: nat)
    ensures LengthAllowed(typ, length, mtu) <==>
      && 1 <= typ <= 14
      && length <= if typ == 7 then (if mtu < 576 || mtu > 1500 then 1432 else mtu + 32)
                   else if typ >= 12 then 16384 else 65536
  {
  }

  /**
   * A receiver takes a message from a stream exactly if the stream begins with a
   * good header, whose length is within the limit of its type and the receiver's
   * room, and with that many octets of payload. It refuses exactly the other
   * complete headers, and waits in all remaining cases.
   */
  lemma {:induction false} ReceivedOctets(s: seq<byte>, cap: nat)
    ensures var acceptable := |s| >= 16 && GoodHeader(s) && U32At(s, 12) <= PayloadLimit(s[5]) && U32At(s, 12) <= cap;
      Deframe(s, cap)
        == if |s| < 16 then NeedMore
           else if !acceptable then Refused
           else if |s| < 16 + U32At(s, 12) then NeedMore
           else Got(Msg(s[5], U32At(s, 8), s[16..16 + U32At(s, 12)]))
  {
    if |s| >= 16 {
      HdrOfOctets(s);
      CheckOctets(s);
      LengthOctets(s[5], U32At(s, 12), DEFAULT_MTU);
      hide U32At, U16At, LengthAllowed, Check, GoodHeader;
    }
  }

  /** What a sender puts on the stream: no flags, session and length in big-endian order, then the payload. */
  lemma {:induction false} SentOctets(m: Msg)
    requires |m.payload| < 0x1_0000_0000
    ensures var b := Image(m);
      && |b| == 16 + |m.payload|
      && b[..8] == [0x4e, 0x54, 0x41, 0x50, 1, m.typ, 0, 0]
      && U32At(b, 8) == m.session && U32At(b, 12) == |m.payload| && b[16..] == m.payload
  {
    var h := Hdr(MAGIC, VERSION, m.typ, 0, m.session, |m.payload|);
    var b := Image(m);
    assert b[..16] == HdrLayout(h);
    HdrExact(HdrLayout(h), h);
    HdrOfOctets(b);
    HdrParts(h);
    assert b[..4] == Be32(MAGIC) == [0x4e, 0x54, 0x41, 0x50];
    assert b[6..8] == b[..16][6..8] == [0, 0];
    assert b[..8] == b[..4] + [b[4], b[5]] + b[6..8];
  }

  /** A message fits a receiver exactly if its type and its payload's length do. */
  lemma {:induction false} ReceivableOctets(m: Msg, cap: nat)
    ensures Receivable(m, cap) <==> 1 <= m.typ <= 14 && |m.payload| <= PayloadLimit(m.typ) && |m.payload| <= cap
  {
    LengthOctets(m.typ, |m.payload|, DEFAULT_MTU);
  }

  /**
   * Receiving is sound and complete: what is received is exactly what the stream
   * begins with, as a message that fits the receiver, whatever the header's flags.
   */
  lemma {:induction false} GotExactly(s: seq<byte>, cap: nat, m: Msg)
    requires |m.payload| < 0x1_0000_0000
    ensures Deframe(s, cap) == Got(m) <==>
      && Receivable(m, cap)
      && exists flags: u16 :: HdrLayout(Hdr(MAGIC, VERSION, m.typ, flags, m.session, |m.payload|)) + m.payload <= s
  {
    hide HdrOf, HdrLayout, LengthAllowed;
    if Deframe(s, cap) == Got(m) {
      var h := HdrOf(s[..HDR_SIZE]);
      HdrExact(s[..HDR_SIZE], h);
      assert s[..HDR_SIZE + h.length] == s[..HDR_SIZE] + m.payload;
      assert h == Hdr(MAGIC, VERSION, m.typ, h.flags, m.session, |m.payload|);
    }
    if flags: u16 :| Receivable(m, cap)
                     && HdrLayout(Hdr(MAGIC, VERSION, m.typ, flags, m.session, |m.payload|)) + m.payload <= s {
      Begins(s, m, flags, cap);
    }
  }

  lemma {:induction false} Begins(s: seq<byte>, m: Msg, flags: u16, cap: nat)
    requires |m.payload| < 0x1_0000_0000 && Receivable(m, cap)
    requires HdrLayout(Hdr(MAGIC, VERSION, m.typ, flags, m.session, |m.payload|)) + m.payload <= s
    ensures Deframe(s, cap) == Got(m)
  {
    hide HdrOf, HdrLayout;
    var h := Hdr(MAGIC, VERSION, m.typ, flags, m.session, |m.payload|);
    var b := HdrLayout(h) + m.payload;
    assert s[..HDR_SIZE] == b[..HDR_SIZE] == HdrLayout(h);
    HdrExact(s[..HDR_SIZE], h);
    assert s[HDR_SIZE..HDR_SIZE + |m.payload|] == b[HDR_SIZE..] == m.payload;
  }
}
