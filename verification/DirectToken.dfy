/**
 * Direct-access tokens: seven '|'-separated fields, the last of which is a keyed
 * digest of the others. The digest function itself is a parameter.
 */
module DirectToken {
  import opened Bytes
  import opened Options
  import opened Sequences
  import opened Text

  const TOKEN_MAX := 1024
  const NODE_ID_MAX := 512
  const NONCE_HEX := 32
  const SIGN_HEX := 64
  const INT64_MAX := 0x7FFF_FFFF_FFFF_FFFF
  const UINT64_MAX := 0xFFFF_FFFF_FFFF_FFFF
  const NEWLINE: string := "\n"
  const BAR: string := "|"

  type Digest = b: seq<byte> | |b| == 32 witness seq(32, _ => 0)

  /** HMAC-SHA256 as a function of key and data. */
  type Mac = (string, string) -> Digest

  datatype Fields = Fields(userId: int, nodeId: string, networkId: int, expireAt: int, nonce: string)

  // -------------------------------------------------------------------------
  // Hexadecimal text
  // -------------------------------------------------------------------------

  function HexDigit(d: int): char
    requires 0 <= d < 16
  {
    "0123456789abcdef"[d]
  }

  function Hex(b: seq<byte>): (s: string)
    ensures |s| == 2 * |b|
    ensures forall i | 0 <= i < |s| :: IsHex(s[i]) && ToLower(s[i]) == s[i]
  {
    if b == [] then "" else [HexDigit(b[0] / 16), HexDigit(b[0] % 16)] + Hex(b[1..])
  }

  predicate HexString(s: string, n: nat) {
    |s| == n && forall i | 0 <= i < |s| :: IsHex(s[i])
  }

  predicate HexEqualCi(a: string, b: string) {
    && HexString(a, SIGN_HEX)
    && HexString(b, SIGN_HEX)
    && forall i | 0 <= i < SIGN_HEX :: ToLower(a[i]) == ToLower(b[i])
  }

  // -------------------------------------------------------------------------
  // Signing and printing
  // -------------------------------------------------------------------------

  predicate NodeIdOk(s: string) {
    s != "" && |s| < NODE_ID_MAX && '|' !in s
  }

  predicate Signable(key: string, f: Fields) {
    && key != ""
    && NodeIdOk(f.nodeId)
    && 0 < f.userId
    && 0 < f.networkId
    && 0 < f.expireAt
    && HexString(f.nonce, NONCE_HEX)
  }

  /** The fields are numbers of the widths that the record has. */
  predicate InWidth(f: Fields) {
    f.userId <= INT64_MAX && f.networkId <= INT64_MAX && 0 <= f.expireAt <= UINT64_MAX
  }

  function Signing(f: Fields): string
    requires 0 <= f.userId && 0 <= f.networkId && 0 <= f.expireAt
  {
    "ntap-direct-v1\n"
    + (Dec(f.userId) + NEWLINE + (f.nodeId + NEWLINE + Dec(f.networkId) + NEWLINE + Dec(f.expireAt) + NEWLINE + f.nonce))
  }

  function SignOf(mac: Mac, key: string, f: Fields): Option<string> {
    if Signable(key, f) && |Signing(f)| < TOKEN_MAX then Some(Hex(mac(key, Signing(f)))) else None
  }

  function Join(fs: seq<string>): string
    requires fs != []
  {
    if |fs| == 1 then fs[0] else fs[0] + BAR + Join(fs[1..])
  }

  function TokenFields(f: Fields, sign: string): seq<string>
    requires 0 <= f.userId && 0 <= f.networkId && 0 <= f.expireAt
  {
    ["ntap1", Dec(f.userId), f.nodeId, Dec(f.networkId), Dec(f.expireAt), f.nonce, sign]
  }

  /** The token text, if the fields can be signed and the text fits a buffer of size cap. */
  function Make(mac: Mac, key: string, f: Fields, cap: nat): Option<string> {
    var sign :- SignOf(mac, key, f);
    var text := Join(TokenFields(f, sign));
    if |text| < cap then Some(text) else None
  }

  // -------------------------------------------------------------------------
  // Reading numbers, as sscanf does with "%jd%c" and "%ju%c"
  // -------------------------------------------------------------------------

  function SkipSpace(s: string): string {
    if s != "" && IsSpace(s[0]) then SkipSpace(s[1..]) else s
  }

  /** Optional white space and sign, then digits up to the very end. */
  function Scan(s: string): Option<(bool, nat)> {
    var t := SkipSpace(s);
    var signed := t != "" && (t[0] == '+' || t[0] == '-');
    var digits := if signed then t[1..] else t;
    if digits == "" || !AllDigits(digits) then None else Some((signed && t[0] == '-', Value(digits)))
  }

  /** A positive 64-bit number; what does not fit becomes the largest one. */
  function ParseI64(s: string): Option<int> {
    var (negative, v) :- Scan(s);
    if negative || v == 0 then None else Some(if v > INT64_MAX then INT64_MAX else v)
  }

  /** A non-zero unsigned 64-bit number; a minus sign negates modulo 2^64. */
  function ParseU64(s: string): Option<int> {
    var (negative, v) :- Scan(s);
    var u := if v > UINT64_MAX then UINT64_MAX
      else if negative && v > 0 then UINT64_MAX + 1 - v
      else v;
    if u == 0 then None else Some(u)
  }

  // -------------------------------------------------------------------------
  // Taking a token apart
  // -------------------------------------------------------------------------

  function Split(s: string): (fs: seq<string>)
    ensures fs != []
    decreases |s|
  {
    var i := First(s, '|');
    if i == |s| then [s] else [s[..i]] + Split(s[i + 1..])
  }

  /** The fields of a token for the given node and network that has not expired. */
  function ReadFields(fs: seq<string>, nodeId: string, networkId: int, now: int): Option<Fields> {
    if |fs| != 7 || fs[0] != "ntap1" || !NodeIdOk(fs[2]) || fs[2] != nodeId then None
    else
      var userId :- ParseI64(fs[1]);
      var net :- ParseI64(fs[3]);
      var expireAt :- ParseU64(fs[4]);
      if net != networkId || expireAt <= now || !HexString(fs[5], NONCE_HEX) || !HexString(fs[6], SIGN_HEX) then None
      else Some(Fields(userId, fs[2], net, expireAt, fs[5]))
  }

  function Verify(mac: Mac, key: string, nodeId: string, networkId: int, now: int, text: string): Option<Fields> {
    if key == "" || !NodeIdOk(nodeId) || networkId <= 0 || |text| >= TOKEN_MAX then None
    else
      var fs := Split(text);
      var f :- ReadFields(fs, nodeId, networkId, now);
      var expected :- SignOf(mac, key, f);
      if HexEqualCi(fs[6], expected) then Some(f) else None
  }

  /** The line a client sends, as the reader hands it on: none without a newline among the first cap - 1 characters. */
  function TokenLine(input: string, cap: nat): Option<string> {
    var n := First(input, '\n');
    if n == |input| || n + 1 >= cap then None else Some(TrimEnd(UpTo(input[..n], NUL)))
  }

  predicate IsLineEnd(c: char) {
    c == '\n' || c == '\r' || c == ' ' || c == '\t'
  }

  function TrimEnd(s: string): (t: string)
    ensures t <= s
  {
    if s != "" && IsLineEnd(s[|s| - 1]) then TrimEnd(s[..|s| - 1]) else s
  }

  // -------------------------------------------------------------------------
  // Splitting and joining are inverse
  // -------------------------------------------------------------------------

  /** The fields joined again are the text. */
  lemma {:induction false} JoinSplit(s: string)
    ensures Join(Split(s)) == s
    ensures forall i | 0 <= i < |Split(s)| :: '|' !in Split(s)[i]
    decreases |s|
  {
    var i := First(s, '|');
    if i < |s| {
      JoinSplit(s[i + 1..]);
      assert Split(s)[1..] == Split(s[i + 1..]);
      assert s == s[..i] + BAR + s[i + 1..];
    }
  }

  lemma {:induction false} SplitJoin(fs: seq<string>)
    requires fs != []
    requires forall i | 0 <= i < |fs| :: '|' !in fs[i]
    ensures Split(Join(fs)) == fs
  {
    if |fs| == 1 {
      var i := First(fs[0], '|');
    } else {
      SplitJoin(fs[1..]);
      SplitFirst(fs[0], Join(fs[1..]));
      assert fs == [fs[0]] + fs[1..];
    }
  }

  lemma {:induction false} SplitFirst(a: string, b: string)
    requires '|' !in a
    ensures Split(a + BAR + b) == [a] + Split(b)
  {
    var s := a + BAR + b;
    FirstSplit(a, '|', b);
    assert s[..|a|] == a && s[|a| + 1..] == b;
  }

  lemma {:induction false} SevenFit(fs: seq<string>)
    requires |fs| == 7
    ensures |Join(fs)| == |fs[0]| + |fs[1]| + |fs[2]| + |fs[3]| + |fs[4]| + |fs[5]| + |fs[6]| + 6
  {
    assert Join(fs) == fs[0] + BAR + Join(fs[1..]);
    assert Join(fs[1..]) == fs[1] + BAR + Join(fs[2..]);
    assert Join(fs[2..]) == fs[2] + BAR + Join(fs[3..]);
    assert Join(fs[3..]) == fs[3] + BAR + Join(fs[4..]);
    assert Join(fs[4..]) == fs[4] + BAR + Join(fs[5..]);
    assert Join(fs[5..]) == fs[5] + BAR + Join(fs[6..]);
  }

  // -------------------------------------------------------------------------
  // Printed numbers
  // -------------------------------------------------------------------------

  lemma {:induction false} ScanDec(n: nat)
    ensures Scan(Dec(n)) == Some((false, n))
  {
    assert IsDigit(Dec(n)[0]);
    DecValue(n);
  }

  lemma {:induction false} ParseDec(n: nat)
    requires 0 < n
    ensures n <= INT64_MAX ==> ParseI64(Dec(n)) == Some(n)
    ensures n <= UINT64_MAX ==> ParseU64(Dec(n)) == Some(n)
  {
    ScanDec(n);
  }

  lemma {:induction false} WidthLength(f: Fields)
    requires InWidth(f) && 0 < f.userId && 0 < f.networkId
    ensures |Dec(f.userId)| <= 19 && |Dec(f.networkId)| <= 19 && |Dec(f.expireAt)| <= 20
  {
    assert Pow10(10) == 1_0000000000;
    assert Pow10(19) == 1000000000_0000000000;
    assert Pow10(20) == 1_0000000000_0000000000;
    DecLength(f.userId, 19);
    DecLength(f.networkId, 19);
    DecLength(f.expireAt, 20);
  }

  // -------------------------------------------------------------------------
  // The theorems
  // -------------------------------------------------------------------------

  /** Whatever can be signed fits: the signing text and the token stay below 1024 characters for every node id. */
  lemma {:induction false} AlwaysFits(mac: Mac, key: string, f: Fields)
    requires Signable(key, f) && InWidth(f)
    ensures |Signing(f)| <= 620
    ensures SignOf(mac, key, f).Some?
    ensures |Join(TokenFields(f, SignOf(mac, key, f).value))| <= 676
    ensures Make(mac, key, f, TOKEN_MAX) == Some(Join(TokenFields(f, SignOf(mac, key, f).value)))
  {
    WidthLength(f);
    SevenFit(TokenFields(f, SignOf(mac, key, f).value));
  }

  lemma {:induction false} TokenFieldsPlain(mac: Mac, key: string, f: Fields)
    requires Signable(key, f) && SignOf(mac, key, f).Some?
    ensures forall i | 0 <= i < 7 :: '|' !in TokenFields(f, SignOf(mac, key, f).value)[i]
  {
    DecHasNo(f.userId, '|');
    DecHasNo(f.networkId, '|');
    DecHasNo(f.expireAt, '|');
    assert !IsHex('|');
  }

  lemma {:induction false} MadeFieldsRead(f: Fields, sign: string, now: int)
    requires NodeIdOk(f.nodeId) && 0 < f.userId && 0 < f.networkId && 0 < f.expireAt && HexString(f.nonce, NONCE_HEX)
    requires InWidth(f) && now < f.expireAt && HexString(sign, SIGN_HEX)
    ensures ReadFields(TokenFields(f, sign), f.nodeId, f.networkId, now) == Some(f)
  {
    hide ParseI64, ParseU64, Dec;
    ParseDec(f.userId);
    ParseDec(f.networkId);
    ParseDec(f.expireAt);
  }

  /** A made token is accepted under the same key, node and network before it expires, and yields the fields it was made of. */
  lemma {:induction false} MadeIsVerified(mac: Mac, key: string, f: Fields, now: int)
    requires Signable(key, f) && InWidth(f) && now < f.expireAt
    ensures var made := Make(mac, key, f, TOKEN_MAX);
      made.Some? && Verify(mac, key, f.nodeId, f.networkId, now, made.value) == Some(f)
  {
    AlwaysFits(mac, key, f);
    var sign := SignOf(mac, key, f).value;
    var fs := TokenFields(f, sign);
    assert Split(Join(fs)) == fs by {
      TokenFieldsPlain(mac, key, f);
      SplitJoin(fs);
    }
    MadeFieldsRead(f, sign, now);
    assert HexEqualCi(sign, sign);
  }

  lemma {:induction false} FieldsRead(fs: seq<string>, nodeId: string, networkId: int, now: nat)
    requires ReadFields(fs, nodeId, networkId, now).Some?
    ensures |fs| == 7
    ensures var f := ReadFields(fs, nodeId, networkId, now).value;
      && f.nodeId == nodeId && f.networkId == networkId && now < f.expireAt && InWidth(f)
      && NodeIdOk(f.nodeId) && 0 < f.userId && HexString(f.nonce, NONCE_HEX)
  {
  }

  /**
   * Whatever spelling of a token is accepted, with spaces, signs, leading zeros
   * or mixed-case digest: it has exactly seven fields, and the token made from
   * the fields it yields is accepted in its place with the same result.
   */
  lemma {:induction false} VerifiedIsCanonical(mac: Mac, key: string, nodeId: string, networkId: int, now: nat, text: string)
    requires Verify(mac, key, nodeId, networkId, now, text).Some?
    ensures |Split(text)| == 7 && Join(Split(text)) == text
    ensures var f := Verify(mac, key, nodeId, networkId, now, text).value;
      && f.nodeId == nodeId && f.networkId == networkId && now < f.expireAt && Signable(key, f)
      && var made := Make(mac, key, f, TOKEN_MAX);
         made.Some? && Verify(mac, key, nodeId, networkId, now, made.value) == Some(f)
  {
    var f := Verify(mac, key, nodeId, networkId, now, text).value;
    FieldsRead(Split(text), nodeId, networkId, now);
    MadeIsVerified(mac, key, f, now);
    JoinSplit(text);
  }

  /** Different fields never have the same signing text, even if the node id holds newlines. */
  lemma {:induction false} SigningIsInjective(key: string, f: Fields, g: Fields)
    requires Signable(key, f) && Signable(key, g)
    requires Signing(f) == Signing(g)
    ensures f == g
  {
    var p := "ntap-direct-v1\n";
    var fr := f.nodeId + NEWLINE + Dec(f.networkId) + NEWLINE + Dec(f.expireAt) + NEWLINE + f.nonce;
    var gr := g.nodeId + NEWLINE + Dec(g.networkId) + NEWLINE + Dec(g.expireAt) + NEWLINE + g.nonce;
    assert Signing(f)[|p|..] == Dec(f.userId) + NEWLINE + fr;
    assert Signing(g)[|p|..] == Dec(g.userId) + NEWLINE + gr;
    NumbersHaveNoNewline(f);
    NumbersHaveNoNewline(g);
    LeftUnique(Dec(f.userId), '\n', fr, Dec(g.userId), gr);
    var f3 := f.nodeId + NEWLINE + Dec(f.networkId) + NEWLINE + Dec(f.expireAt);
    var g3 := g.nodeId + NEWLINE + Dec(g.networkId) + NEWLINE + Dec(g.expireAt);
    RightUnique(f3, '\n', f.nonce, g3, g.nonce);
    var f2 := f.nodeId + NEWLINE + Dec(f.networkId);
    var g2 := g.nodeId + NEWLINE + Dec(g.networkId);
    RightUnique(f2, '\n', Dec(f.expireAt), g2, Dec(g.expireAt));
    RightUnique(f.nodeId, '\n', Dec(f.networkId), g.nodeId, Dec(g.networkId));
    DecValue(f.userId);
    DecValue(g.userId);
    DecValue(f.networkId);
    DecValue(g.networkId);
    DecValue(f.expireAt);
    DecValue(g.expireAt);
  }

  lemma {:induction false} NumbersHaveNoNewline(f: Fields)
    requires 0 <= f.userId && 0 <= f.networkId && 0 <= f.expireAt
    requires HexString(f.nonce, NONCE_HEX)
    ensures '\n' !in Dec(f.userId) && '\n' !in Dec(f.networkId) && '\n' !in Dec(f.expireAt) && '\n' !in f.nonce
  {
    DecHasNo(f.userId, '\n');
    DecHasNo(f.networkId, '\n');
    DecHasNo(f.expireAt, '\n');
    assert !IsHex('\n');
  }

  /** Characters of a made token are those of the node id or printable ones. */
  lemma {:induction false} MadeHasNo(mac: Mac, key: string, f: Fields, c: char)
    requires Signable(key, f) && SignOf(mac, key, f).Some?
    requires c !in f.nodeId && c < ' '
    ensures c !in Join(TokenFields(f, SignOf(mac, key, f).value))
  {
    DecHasNo(f.userId, c);
    DecHasNo(f.networkId, c);
    DecHasNo(f.expireAt, c);
    assert !IsHex(c) && c !in "ntap1";
    JoinHasNo(TokenFields(f, SignOf(mac, key, f).value), c);
  }

  lemma {:induction false} JoinHasNo(fs: seq<string>, c: char)
    requires fs != [] && c != '|'
    requires forall i | 0 <= i < |fs| :: c !in fs[i]
    ensures c !in Join(fs)
  {
    if |fs| > 1 {
      JoinHasNo(fs[1..], c);
    }
  }

  lemma {:induction false} JoinEnd(fs: seq<string>)
    requires fs != [] && fs[|fs| - 1] != ""
    ensures Join(fs) != "" && Join(fs)[|Join(fs)| - 1] == fs[|fs| - 1][|fs[|fs| - 1]| - 1]
  {
    if |fs| > 1 {
      JoinEnd(fs[1..]);
    }
  }

  /** A made token sent as a line, with or without a carriage return, is read as the token, whatever follows. */
  lemma {:induction false} MadeIsRead(mac: Mac, key: string, f: Fields, rest: string)
    requires Signable(key, f) && InWidth(f)
    requires '\n' !in f.nodeId && NUL !in f.nodeId
    ensures var made := Make(mac, key, f, TOKEN_MAX);
      && made.Some?
      && TokenLine(made.value + "\n" + rest, TOKEN_MAX) == made
      && TokenLine(made.value + "\r\n" + rest, TOKEN_MAX) == made
  {
    AlwaysFits(mac, key, f);
    var sign := SignOf(mac, key, f).value;
    var text := Join(TokenFields(f, sign));
    MadeHasNo(mac, key, f, '\n');
    MadeHasNo(mac, key, f, NUL);
    JoinEnd(TokenFields(f, sign));
    assert IsHex(sign[SIGN_HEX - 1]);
    LineIsRead(text, "", rest);
    LineIsRead(text, "\r", rest);
    assert text + "" == text;
    assert text + "\r" + "\n" + rest == text + "\r\n" + rest;
    assert (text + "\r")[..|text|] == text;
  }

  lemma {:induction false} LineIsRead(text: string, end: string, rest: string)
    requires end == "" || end == "\r"
    requires '\n' !in text && NUL !in text && |text| + 2 < TOKEN_MAX
    ensures TokenLine(text + end + "\n" + rest, TOKEN_MAX) == Some(TrimEnd(text + end))
  {
    FirstSplit(text + end, '\n', rest);
    assert (text + end + "\n" + rest)[..|text + end|] == text + end;
  }

  /** What makes, sends, reads and verifies a token together hand over exactly the fields, whichever line end is sent. */
  lemma {:induction false} TokenRoundTrip(mac: Mac, key: string, f: Fields, now: int, end: string, rest: string)
    requires Signable(key, f) && InWidth(f) && now < f.expireAt
    requires '\n' !in f.nodeId && NUL !in f.nodeId
    requires end == "\n" || end == "\r\n"
    ensures var made := Make(mac, key, f, TOKEN_MAX);
      && made.Some?
      && var line := TokenLine(made.value + end + rest, TOKEN_MAX);
         line.Some? && Verify(mac, key, f.nodeId, f.networkId, now, line.value) == Some(f)
  {
    MadeIsRead(mac, key, f, rest);
    MadeIsVerified(mac, key, f, now);
  }
}
