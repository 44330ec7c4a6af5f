/** The token checks and the line reader as the program runs them, against module DirectToken. */
module TokenCode {
  import opened DirectToken
  import opened Options
  import opened Sequences
  import opened Text
  import opened TokenMeaning

  method CheckHexString(value: string, n: nat) returns (ok: bool)
    ensures ok <==> HexString(value, n)
  {
    if |value| != n {
      return false;
    }
    var i := 0;
    while i < n
      invariant i <= n
      invariant forall j | 0 <= j < i :: IsHex(value[j])
    {
      if !IsHex(value[i]) {
        return false;
      }
      i := i + 1;
    }
    return true;
  }

  /** Compares all 64 digits, wherever the first difference is; diff stands for the gathered differing bits. */
  method CheckHexEqualCi(a: string, b: string) returns (equal: bool)
    ensures equal <==> HexEqualCi(a, b)
  {
    var aOk := CheckHexString(a, SIGN_HEX);
    var bOk := CheckHexString(b, SIGN_HEX);
    if !aOk || !bOk {
      return false;
    }
    var diff := false;
    var i := 0;
    while i < SIGN_HEX
      invariant i <= SIGN_HEX
      invariant !diff <==> forall j | 0 <= j < i :: ToLower(a[j]) == ToLower(b[j])
    {
      var differs := ToLower(a[i]) != ToLower(b[i]);
      diff := diff || differs;
      i := i + 1;
    }
    return !diff;
  }

  // -------------------------------------------------------------------------
  // Cutting fields off in place
  // -------------------------------------------------------------------------

  /** The text from a position of a buffer up to its NUL; none for the null cursor -1. */
  ghost function Rest(copy: array<char>, cursor: int): Option<string>
    requires -1 <= cursor <= copy.Length
    reads copy
  {
    if cursor == -1 then None else Some(TextAt(copy, cursor))
  }

  ghost predicate Terminated(copy: array<char>, cursor: int)
    reads copy
  {
    cursor == -1 || (0 <= cursor && Ends(copy, cursor))
  }

  /** The fields still to be taken from a remaining text. */
  function Left(rest: Option<string>): seq<string> {
    match rest
    case None => []
    case Some(s) => Split(s)
  }

  /** strchr for a bar: its position, or that of the terminating NUL. */
  method FindBar(copy: array<char>, cursor: nat) returns (end: nat)
    requires Terminated(copy, cursor)
    ensures cursor <= end < copy.Length
    ensures end == cursor + First(UpTo(copy[cursor..], NUL), '|')
    ensures copy[end] == '|' || (copy[end] == NUL && end == cursor + |UpTo(copy[cursor..], NUL)|)
  {
    ghost var text := UpTo(copy[cursor..], NUL);
    end := cursor;
    while copy[end] != NUL && copy[end] != '|'
      invariant cursor <= end <= cursor + |text|
      invariant forall i | 0 <= i < end - cursor :: text[i] != '|'
      decreases copy.Length - end
    {
      assert text[end - cursor] == copy[end];
      end := end + 1;
    }
    FirstFound(text, '|', end - cursor);
  }

  /**
   * Replaces the next bar by a NUL and moves the cursor behind it. The field is
   * handed on as the string that now starts at the old cursor; nothing before
   * that is touched, so fields cut off earlier keep their text.
   */
  method NextField(copy: array<char>, cursor: int, ghost left: seq<string>) returns (field: Option<string>, next: int)
    requires Remains(copy, cursor, left)
    modifies copy
    ensures Remains(copy, next, OthersLeft(left))
    ensures field == FirstLeft(left) == Rest(copy, cursor)
    ensures next == -1 <==> OthersLeft(left) == []
    ensures forall i | 0 <= i < cursor :: copy[i] == old(copy[i])
  {
    if cursor == -1 {
      return None, -1;
    }
    field, next := CutField(copy, cursor);
    SplitStep(old(Rest(copy, cursor)).value);
  }

  /** The fields left from the cursor on. */
  ghost predicate Remains(copy: array<char>, cursor: int, left: seq<string>)
    reads copy
  {
    Terminated(copy, cursor) && Left(Rest(copy, cursor)) == left
  }

  function FirstLeft(fs: seq<string>): Option<string> {
    if fs == [] then None else Some(fs[0])
  }

  function OthersLeft(fs: seq<string>): seq<string> {
    if fs == [] then [] else fs[1..]
  }

  lemma {:induction false} SplitStep(s: string)
    ensures Cut(s) == (Some(Split(s)[0]), Cut(s).1) && Split(s)[1..] == Left(Cut(s).1)
  {
  }

  /** The first field of a text and what remains behind its bar. */
  function Cut(s: string): (Option<string>, Option<string>) {
    var i := First(s, '|');
    if i == |s| then (Some(s), None) else (Some(s[..i]), Some(s[i + 1..]))
  }

  method CutField(copy: array<char>, cursor: nat) returns (field: Option<string>, next: int)
    requires Terminated(copy, cursor)
    modifies copy
    ensures Terminated(copy, next)
    ensures (field, Rest(copy, next)) == Cut(old(Rest(copy, cursor)).value)
    ensures field == Rest(copy, cursor)
    ensures forall i | 0 <= i < cursor :: copy[i] == old(copy[i])
  {
    var end := FindBar(copy, cursor);
    field := Some(copy[cursor..end]);
    ghost var before := copy[..];
    assert copy[cursor..] == before[cursor..];
    if copy[end] != '|' {
      assert UpTo(before[cursor..], NUL) == before[cursor..end];
      return field, -1;
    }
    next := end + 1;
    copy[end] := NUL;
    CutIs(before, copy[..], cursor, end);
    assert copy[..][cursor..] == copy[cursor..] && copy[..][next..] == copy[next..];
  }

  lemma {:induction false} CutIs(before: string, after: string, cursor: nat, end: nat)
    requires cursor <= end < |before| && after == before[end := NUL]
    requires cursor + First(before[cursor..], NUL) < |before|
    requires end == cursor + First(UpTo(before[cursor..], NUL), '|')
    requires before[end] == '|'
    ensures Cut(UpTo(before[cursor..], NUL)) == (Some(before[cursor..end]), Some(UpTo(after[end + 1..], NUL)))
    ensures UpTo(after[cursor..], NUL) == before[cursor..end]
    ensures end + 1 + First(after[end + 1..], NUL) < |after|
  {
    hide First, UpTo, Cut;
    CutAt(before, cursor, end);
    CutText(UpTo(before[cursor..], NUL), end - cursor);
  }

  lemma {:induction false} CutText(text: string, i: nat)
    requires i == First(text, '|') < |text|
    ensures Cut(text) == (Some(text[..i]), Some(text[i + 1..]))
  {
  }

  /** What cutting a terminated text at a position before its NUL leaves on both sides. */
  lemma {:induction false} CutAt(before: string, cursor: nat, end: nat)
    requires cursor <= end < |before|
    requires end < cursor + First(before[cursor..], NUL) < |before|
    ensures var after := before[end := NUL];
      var text := UpTo(before[cursor..], NUL);
      && UpTo(after[cursor..], NUL) == text[..end - cursor] == before[cursor..end]
      && UpTo(after[end + 1..], NUL) == text[end + 1 - cursor..]
      && end + 1 + First(after[end + 1..], NUL) < |after|
  {
    var after := before[end := NUL];
    var n := First(before[cursor..], NUL);
    FirstFound(after[cursor..], NUL, end - cursor);
    assert after[end + 1..] == before[cursor..][end + 1 - cursor..];
    FirstFound(after[end + 1..], NUL, n - (end + 1 - cursor));
    assert after[cursor..][..end - cursor] == before[cursor..][..n][..end - cursor] == before[cursor..end];
    assert after[end + 1..][..n - (end + 1 - cursor)] == before[cursor..][..n][end + 1 - cursor..];
  }

  /** The fields behind the first k. */
  function Behind(fs: seq<string>, k: nat): seq<string> {
    if k <= |fs| then fs[k..] else []
  }

  lemma {:induction false} BehindNext(fs: seq<string>, k: nat)
    ensures FirstLeft(Behind(fs, k)) == if k < |fs| then Some(fs[k]) else None
    ensures OthersLeft(Behind(fs, k)) == Behind(fs, k + 1)
    ensures Behind(fs, k + 1) == [] <==> |fs| <= k + 1
    ensures Behind(fs, 0) == fs
  {
  }

  /** Cuts off seven fields; all are there and nothing is left exactly when the text has seven. */
  method TakeSeven(copy: array<char>, ghost all: seq<string>) returns (fs: seq<string>, complete: bool)
    requires Remains(copy, 0, all)
    modifies copy
    ensures complete <==> |all| == 7
    ensures complete ==> fs == all
  {
    hide Remains, Left, Rest, Split, Behind, FirstLeft, OthersLeft;
    BehindNext(all, 0);
    BehindNext(all, 1);
    BehindNext(all, 2);
    BehindNext(all, 3);
    BehindNext(all, 4);
    BehindNext(all, 5);
    BehindNext(all, 6);
    var version, c1 := NextField(copy, 0, Behind(all, 0));
    var userId, c2 := NextField(copy, c1, Behind(all, 1));
    var nodeId, c3 := NextField(copy, c2, Behind(all, 2));
    var networkId, c4 := NextField(copy, c3, Behind(all, 3));
    var expireAt, c5 := NextField(copy, c4, Behind(all, 4));
    var nonce, c6 := NextField(copy, c5, Behind(all, 5));
    var sign, c7 := NextField(copy, c6, Behind(all, 6));
    complete := c7 == -1 && sign.Some?;
    fs := [];
    if complete {
      fs := [version.value, userId.value, nodeId.value, networkId.value, expireAt.value, nonce.value, sign.value];
    }
  }

  // -------------------------------------------------------------------------
  // Verifying and reading
  // -------------------------------------------------------------------------

  method VerifyToken(mac: Mac, key: string, nodeId: string, networkId: int, now: int, token: string) returns (out: Option<Fields>)
    requires NUL !in token
    ensures out == Verify(mac, key, nodeId, networkId, now, token)
    ensures forall f :: out == Some(f) <==> Genuine(mac, key, nodeId, networkId, now, token, f)
  {
    forall f
      ensures Verify(mac, key, nodeId, networkId, now, token) == Some(f) <==> Genuine(mac, key, nodeId, networkId, now, token, f)
    {
      VerifiedIsGenuine(mac, key, nodeId, networkId, now, token, f);
    }
    hide Genuine;
    if key == "" || !NodeIdOk(nodeId) || networkId <= 0 || |token| >= TOKEN_MAX {
      return None;
    }
    var copy := new char[TOKEN_MAX];
    CopyText(copy, token);
    assert copy[0..] == copy[..] == token + [NUL] + copy[|token| + 1..];
    FirstSplit(token, NUL, copy[|token| + 1..]);
    var fs, complete := TakeSeven(copy, Split(token));
    if !complete {
      return None;
    }
    var fields := CheckFields(fs, nodeId, networkId, now);
    if fields.None? {
      return None;
    }
    var expected := SignOf(mac, key, fields.value);
    if expected.None? {
      return None;
    }
    var equal := CheckHexEqualCi(fs[6], expected.value);
    out := if equal then fields else None;
  }

  method CheckFields(fs: seq<string>, nodeId: string, networkId: int, now: int) returns (out: Option<Fields>)
    requires |fs| == 7
    ensures out == ReadFields(fs, nodeId, networkId, now)
  {
    if fs[0] != "ntap1" {
      return None;
    }
    var userId := ParseI64(fs[1]);
    if userId.None? || !NodeIdOk(fs[2]) || fs[2] != nodeId {
      return None;
    }
    var net := ParseI64(fs[3]);
    if net.None? || net.value != networkId {
      return None;
    }
    var expireAt := ParseU64(fs[4]);
    if expireAt.None? || expireAt.value <= now {
      return None;
    }
    var nonceOk := CheckHexString(fs[5], NONCE_HEX);
    var signOk := CheckHexString(fs[6], SIGN_HEX);
    if !nonceOk || !signOk {
      return None;
    }
    out := Some(Fields(userId.value, fs[2], net.value, expireAt.value, fs[5]));
  }

  /**
   * Reads a line character by character into buf. The input is what the client
   * sends before it falls silent, fails or closes.
   */
  method ReadTokenLine(input: string, buf: array<char>) returns (ok: bool)
    requires buf.Length > 0
    modifies buf
    ensures ok <==> TokenLine(input, buf.Length).Some?
    ensures ok ==> TokenLine(input, buf.Length) == Some(Held(buf))
  {
    buf[0] := NUL;
    var len := 0;
    while len + 1 < buf.Length
      invariant 0 <= len < buf.Length && len <= |input|
      invariant forall i | 0 <= i < len :: input[i] != '\n' && buf[i] == input[i]
    {
      if len == |input| {
        FirstFound(input, '\n', len);
        return false;
      }
      if input[len] == '\n' {
        break;
      }
      buf[len] := input[len];
      len := len + 1;
    }
    if len + 1 >= buf.Length {
      assert First(input, '\n') >= len;
      return false;
    }
    FirstFound(input, '\n', len);
    buf[len] := NUL;
    assert buf[..len] == input[..len];
    assert buf[..] == input[..len] + [NUL] + buf[len + 1..];
    HeldLine(input[..len], buf[len + 1..]);
    TrimInPlace(buf);
    return true;
  }

  /** The text of a buffer that holds a line and a NUL behind it. */
  lemma {:induction false} HeldLine(line: string, junk: string)
    ensures UpTo(line + [NUL] + junk, NUL) == UpTo(line, NUL)
  {
    var n := First(line, NUL);
    FirstFound(line + [NUL] + junk, NUL, n);
    assert (line + [NUL] + junk)[..n] == line[..n];
  }

  /** Moves the terminating NUL in front of line ends and blanks at the end. */
  method TrimInPlace(buf: array<char>)
    requires First(buf[..], NUL) < buf.Length
    modifies buf
    ensures Held(buf) == TrimEnd(old(Held(buf)))
  {
    var len := First(buf[..], NUL);
    while len > 0 && IsLineEnd(buf[len - 1])
      invariant 0 <= len < buf.Length && First(buf[..], NUL) == len
      invariant TrimEnd(buf[..len]) == TrimEnd(old(Held(buf)))
    {
      ghost var before := buf[..];
      len := len - 1;
      buf[len] := NUL;
      FirstFound(buf[..], NUL, len);
      assert before[..len + 1][..len] == buf[..len];
    }
  }
}
