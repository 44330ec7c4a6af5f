/** When a token is genuine, spelled out field by field, and how its texts and numbers are written. */
module TokenMeaning {
  import opened Bytes
  import opened DirectToken
  import opened Options
  import opened Sequences
  import opened Text

  // -------------------------------------------------------------------------
  // Numbers in a token
  // -------------------------------------------------------------------------

  predicate AllSpace(s: string) {
    forall i | 0 <= i < |s| :: IsSpace(s[i])
  }

  lemma {:induction false} SpaceSkipped(space: string, s: string)
    requires AllSpace(space) && (s != "" ==> !IsSpace(s[0]))
    ensures SkipSpace(space + s) == s
  {
    if space != "" {
      SpaceSkipped(space[1..], s);
      assert (space + s)[1..] == space[1..] + s;
    } else {
      assert space + s == s;
    }
  }

  /** White space, at most one sign and digits are read as the number of the digits, negative after a minus sign. */
  lemma {:induction false} NumberIsRead(space: string, sign: string, digits: string)
    requires AllSpace(space) && (sign == "" || sign == "+" || sign == "-") && digits != "" && AllDigits(digits)
    ensures Scan(space + sign + digits) == Some((sign == "-", Value(digits)))
  {
    hide SkipSpace, Value, AllDigits;
    var t := sign + digits;
    assert space + sign + digits == space + t;
    FirstDigit(digits);
    SpaceSkipped(space, t);
    if sign == "" {
      assert t == digits;
    } else {
      assert t[0] == sign[0] && t[1..] == digits;
    }
  }

  lemma {:induction false} FirstDigit(digits: string)
    requires digits != "" && AllDigits(digits)
    ensures !IsSpace(digits[0]) && digits[0] != '+' && digits[0] != '-'
    ensures !IsSpace('+') && !IsSpace('-')
  {
  }

  /** And nothing else is read as a number. */
  lemma {:induction false} OnlyNumbersAreRead(s: string) returns (space: string, sign: string, digits: string)
    requires Scan(s).Some?
    ensures s == space + sign + digits && AllSpace(space) && (sign == "" || sign == "+" || sign == "-") && digits != "" && AllDigits(digits)
  {
    hide SkipSpace, Value;
    var t := SkipSpace(s);
    space := SkippedPart(s);
    var signed := t[0] == '+' || t[0] == '-';
    sign := if signed then [t[0]] else "";
    digits := if signed then t[1..] else t;
    assert t == sign + digits;
    assert signed ==> sign == "+" || sign == "-";
  }

  lemma {:induction false} SkippedPart(s: string) returns (space: string)
    ensures s == space + SkipSpace(s) && AllSpace(space)
  {
    if s != "" && IsSpace(s[0]) {
      var rest := SkippedPart(s[1..]);
      space := [s[0]] + rest;
      assert s == [s[0]] + s[1..];
    } else {
      space := "";
    }
  }

  /** Ids are positive and at most 2^63 - 1, expiry times not zero and taken modulo 2^64; larger numbers count as the largest. */
  lemma {:induction false} NumbersMean(s: string)
    ensures ParseI64(s) == (match Scan(s)
      case None => None
      case Some((negative, v)) =>
        if negative || v == 0 then None else Some(if v > 9223372036854775807 then 9223372036854775807 else v))
    ensures ParseU64(s) == (match Scan(s)
      case None => None
      case Some((negative, v)) =>
        if v == 0 then None
        else if v > 18446744073709551615 then Some(18446744073709551615)
        else Some(if negative then 18446744073709551616 - v else v))
  {
  }

  // -------------------------------------------------------------------------
  // Texts
  // -------------------------------------------------------------------------

  lemma {:induction false} HexAt(b: seq<byte>, i: nat)
    requires i < |b|
    ensures Hex(b)[2 * i] == "0123456789abcdef"[b[i] / 16] && Hex(b)[2 * i + 1] == "0123456789abcdef"[b[i] % 16]
  {
    if i > 0 {
      HexAt(b[1..], i - 1);
    }
  }

  lemma {:induction false} SigningSpelled(f: Fields)
    requires 0 <= f.userId && 0 <= f.networkId && 0 <= f.expireAt
    ensures Signing(f)
      == "ntap-direct-v1\n" + Dec(f.userId) + "\n" + f.nodeId + "\n" + Dec(f.networkId) + "\n" + Dec(f.expireAt) + "\n" + f.nonce
  {
    hide Dec;
    var a, b, c := "ntap-direct-v1\n", Dec(f.userId), f.nodeId + "\n" + Dec(f.networkId) + "\n" + Dec(f.expireAt) + "\n" + f.nonce;
    assert a + (b + ("\n" + c)) == a + b + "\n" + c;
  }

  lemma {:induction false} TokenSpelled(f: Fields, sign: string)
    requires 0 <= f.userId && 0 <= f.networkId && 0 <= f.expireAt
    ensures Join(TokenFields(f, sign))
      == "ntap1" + "|" + Dec(f.userId) + "|" + f.nodeId + "|" + Dec(f.networkId) + "|" + Dec(f.expireAt) + "|" + f.nonce + "|" + sign
  {
    var fs := TokenFields(f, sign);
    hide Dec;
    JoinLeft(fs, 6);
    JoinLeft(fs[..6], 5);
    JoinLeft(fs[..5], 4);
    JoinLeft(fs[..4], 3);
    JoinLeft(fs[..3], 2);
    JoinLeft(fs[..2], 1);
    assert fs[..6][..5] == fs[..5] && fs[..5][..4] == fs[..4] && fs[..4][..3] == fs[..3] && fs[..3][..2] == fs[..2];
    assert fs[..2][..1] == fs[..1] && Join(fs[..1]) == fs[0];
  }

  lemma {:induction false} JoinLeft(fs: seq<string>, n: nat)
    requires 0 < n == |fs| - 1
    ensures Join(fs) == Join(fs[..n]) + "|" + fs[n]
  {
    if n == 1 {
      assert Join(fs[1..]) == fs[1];
    } else {
      JoinLeft(fs[1..], n - 1);
      assert fs[1..][..n - 1] == fs[..n][1..];
      assert fs[0] + "|" + (Join(fs[1..][..n - 1]) + "|" + fs[n]) == fs[0] + "|" + Join(fs[1..][..n - 1]) + "|" + fs[n];
    }
  }

  /** A line is what comes before the first newline, up to a NUL and without line ends and blanks behind it, if it fits. */
  lemma {:induction false} LineExactly(raw: string, rest: string, cap: nat)
    requires '\n' !in raw
    ensures TokenLine(raw + "\n" + rest, cap) == if |raw| + 1 >= cap then None else Some(TrimEnd(UpTo(raw, NUL)))
    ensures TokenLine(raw, cap) == None
  {
    FirstSplit(raw, '\n', rest);
    assert (raw + "\n" + rest)[..|raw|] == raw;
    assert First(raw, '\n') == |raw|;
  }

  lemma {:induction false} TrimmedEnd(s: string)
    ensures var t := TrimEnd(s);
      && t <= s
      && (forall i | |t| <= i < |s| :: s[i] in "\n\r \t")
      && (t != "" ==> t[|t| - 1] !in "\n\r \t")
  {
    LineEnds();
    if s != "" && IsLineEnd(s[|s| - 1]) {
      TrimmedEnd(s[..|s| - 1]);
    }
  }

  lemma {:induction false} LineEnds()
    ensures forall c :: IsLineEnd(c) <==> c in "\n\r \t"
  {
    forall c
      ensures IsLineEnd(c) <==> c in "\n\r \t"
    {
      var all := "\n\r \t";
      assert all[0] == '\n' && all[1] == '\r' && all[2] == ' ' && all[3] == '\t';
    }
  }

  // -------------------------------------------------------------------------
  // Genuine tokens
  // -------------------------------------------------------------------------

  predicate IsDigest(text: string, digest: string) {
    |text| == 64 == |digest| && forall i | 0 <= i < 64 :: IsHex(text[i]) && ToLower(text[i]) == digest[i]
  }

  /**
   * The text is a token of these fields for this node and network that has not
   * expired: seven fields, the last of which is, up to case, the digest under the
   * key of the signing text of the others.
   */
  predicate Genuine(mac: Mac, key: string, nodeId: string, networkId: int, now: int, text: string, f: Fields) {
    && key != "" && 0 < |nodeId| < 512 && '|' !in nodeId && networkId > 0 && |text| < 1024
    && f.nodeId == nodeId && f.networkId == networkId && f.userId > 0 && f.expireAt > 0 && f.expireAt > now
    && var fs := Split(text);
       && |fs| == 7 && fs[0] == "ntap1" && fs[2] == nodeId && fs[5] == f.nonce
       && ParseI64(fs[1]) == Some(f.userId) && ParseI64(fs[3]) == Some(networkId) && ParseU64(fs[4]) == Some(f.expireAt)
       && |f.nonce| == 32 && (forall i | 0 <= i < 32 :: IsHex(f.nonce[i]))
       && IsDigest(fs[6], Hex(mac(key, Signing(f))))
  }

  lemma {:induction false} PositiveNumbers(s: string)
    ensures ParseI64(s).Some? ==> 0 < ParseI64(s).value <= INT64_MAX
    ensures ParseU64(s).Some? ==> 0 < ParseU64(s).value <= UINT64_MAX
  {
    NumbersMean(s);
  }

  /** Verification accepts exactly the genuine tokens, and yields exactly their fields. */
  lemma {:induction false} VerifiedIsGenuine(
    mac: Mac, key: string, nodeId: string, networkId: int, now: int, text: string, f: Fields)
    ensures Verify(mac, key, nodeId, networkId, now, text) == Some(f) <==> Genuine(mac, key, nodeId, networkId, now, text, f)
  {
    hide Split, ParseI64, ParseU64, Signing, Hex, HexEqualCi, IsDigest, ReadFields, HexString, SignOf;
    var fs := Split(text);
    SevenFields(fs, nodeId, networkId, now);
    if |fs| == 7 {
      FieldsExactly(fs, nodeId, networkId, now, f);
      if key != "" && ReadFields(fs, nodeId, networkId, now) == Some(f) && 0 < networkId {
        SignedExactly(fs, mac, key, nodeId, networkId, now, f);
      }
      DigestIsHex(fs[6]);
      NonceIsHex(f.nonce);
    }
  }

  lemma {:induction false} SevenFields(fs: seq<string>, nodeId: string, networkId: int, now: int)
    ensures ReadFields(fs, nodeId, networkId, now).Some? ==> |fs| == 7
  {
  }

  lemma {:induction false} NonceIsHex(nonce: string)
    ensures HexString(nonce, 32) <==> |nonce| == 32 && forall i | 0 <= i < 32 :: IsHex(nonce[i])
  {
  }

  lemma {:induction false} DigestIsHex(text: string)
    ensures forall digest: string :: IsDigest(text, digest) ==> HexString(text, 64)
  {
  }

  lemma {:induction false} SignedExactly(
    fs: seq<string>, mac: Mac, key: string, nodeId: string, networkId: int, now: int, f: Fields)
    requires |fs| == 7 && key != "" && networkId > 0 && ReadFields(fs, nodeId, networkId, now) == Some(f)
    ensures f.userId > 0 && f.networkId > 0 && f.expireAt > 0
    ensures SignOf(mac, key, f) == Some(Hex(mac(key, Signing(f))))
    ensures HexEqualCi(fs[6], Hex(mac(key, Signing(f)))) <==> IsDigest(fs[6], Hex(mac(key, Signing(f))))
  {
    hide Split, ParseI64, ParseU64, Signing, Hex, HexEqualCi, IsDigest;
    PositiveNumbers(fs[1]);
    PositiveNumbers(fs[3]);
    PositiveNumbers(fs[4]);
    AlwaysFits(mac, key, f);
    DigestExactly(fs[6], mac, key, f);
  }

  lemma {:induction false} FieldsExactly(fs: seq<string>, nodeId: string, networkId: int, now: int, f: Fields)
    requires |fs| == 7
    ensures ReadFields(fs, nodeId, networkId, now) == Some(f) <==>
      && fs[0] == "ntap1" && fs[2] == nodeId && 0 < |nodeId| < 512 && '|' !in nodeId
      && ParseI64(fs[1]) == Some(f.userId) && ParseI64(fs[3]) == Some(networkId) && ParseU64(fs[4]) == Some(f.expireAt)
      && f.expireAt > now && HexString(fs[5], 32) && HexString(fs[6], 64)
      && f.nodeId == nodeId && f.networkId == networkId && f.nonce == fs[5]
  {
    hide ParseI64, ParseU64, HexString;
  }

  lemma {:induction false} DigestExactly(text: string, mac: Mac, key: string, f: Fields)
    requires 0 <= f.userId && 0 <= f.networkId && 0 <= f.expireAt
    ensures HexString(text, 64) ==>
      (HexEqualCi(text, Hex(mac(key, Signing(f)))) <==> IsDigest(text, Hex(mac(key, Signing(f)))))
  {
    hide Signing;
  }

  /** Of two accepted tokens that agree in all fields but the digest, the digests agree up to case. */
  lemma {:induction false} OneDigestIsAccepted(
    mac: Mac, key: string, nodeId: string, networkId: int, now: int, text: string, text': string)
    requires Verify(mac, key, nodeId, networkId, now, text).Some? && Verify(mac, key, nodeId, networkId, now, text').Some?
    requires Split(text)[..6] == Split(text')[..6]
    ensures |Split(text)| == |Split(text')| == 7
    ensures |Split(text)[6]| == |Split(text')[6]| == 64
    ensures forall i | 0 <= i < 64 :: ToLower(Split(text)[6][i]) == ToLower(Split(text')[6][i])
  {
    var f, g := Verify(mac, key, nodeId, networkId, now, text).value, Verify(mac, key, nodeId, networkId, now, text').value;
    VerifiedIsGenuine(mac, key, nodeId, networkId, now, text, f);
    VerifiedIsGenuine(mac, key, nodeId, networkId, now, text', g);
    hide Split, ParseI64, ParseU64, Signing, Hex, Verify;
    assert forall i | 0 <= i < 6 :: Split(text)[i] == Split(text)[..6][i] == Split(text')[i];
    assert f == g;
  }
}
