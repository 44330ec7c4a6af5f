/** The configuration loader as the program runs it: in place on a line buffer, into a bounded entry array. */
module IniCode {
  import opened IniFile
  import opened Options
  import opened Sequences
  import opened Text

  // -------------------------------------------------------------------------
  // Editing the line buffer in place
  // -------------------------------------------------------------------------

  /** Only the text at a position may have changed, not what surrounds it. */
  ghost predicate Within(before: string, after: string, at: nat) {
    && |before| == |after| && at <= |before|
    && forall i | 0 <= i < |before| && !(at <= i < at + First(before[at..], NUL)) :: after[i] == before[i]
  }

  lemma {:induction false} TextFrom(s: string, at: nat, k: nat)
    requires at + k <= |s| && k <= First(s[at..], NUL)
    ensures UpTo(s[at + k..], NUL) == UpTo(s[at..], NUL)[k..]
    ensures at + First(s[at..], NUL) == at + k + First(s[at + k..], NUL)
  {
    var n := First(s[at..], NUL);
    assert s[at..][k..] == s[at + k..];
    FirstFound(s[at + k..], NUL, n - k);
    assert s[at + k..][..n - k] == s[at..][..n][k..];
  }

  lemma {:induction false} SkipOne(s: string, at: nat)
    requires at < |s| && at + First(s[at..], NUL) < |s| && IsSpace(s[at])
    ensures at + First(s[at..], NUL) == at + 1 + First(s[at + 1..], NUL)
    ensures DropSpace(UpTo(s[at..], NUL)) == DropSpace(UpTo(s[at + 1..], NUL))
    ensures |UpTo(s[at..], NUL)| == 1 + |UpTo(s[at + 1..], NUL)|
  {
    TextFrom(s, at, 1);
    assert UpTo(s[at..], NUL)[0] == s[at];
  }

  method SkipSpaceAt(buf: array<char>, at: nat) returns (start: nat)
    requires Ends(buf, at)
    ensures at <= start && Ends(buf, start)
    ensures start + |TextAt(buf, start)| == at + |TextAt(buf, at)|
    ensures TextAt(buf, start) == DropSpace(TextAt(buf, at))
  {
    hide First, UpTo, DropSpace;
    ghost var s := buf[..];
    assert s[at..] == buf[at..];
    start := at;
    while IsSpace(buf[start])
      invariant at <= start < |s| && start + First(s[start..], NUL) < |s|
      invariant start + |UpTo(s[start..], NUL)| == at + |UpTo(s[at..], NUL)|
      invariant DropSpace(UpTo(s[at..], NUL)) == DropSpace(UpTo(s[start..], NUL))
      decreases |s| - start
    {
      SkipOne(s, start);
      start := start + 1;
    }
    assert s[start..] == buf[start..];
    NotSpace(s[start..]);
  }

  lemma {:induction false} NotSpace(s: string)
    requires s != "" && !IsSpace(s[0])
    ensures DropSpace(UpTo(s, NUL)) == UpTo(s, NUL)
  {
  }

  lemma {:induction false} CutText(before: string, after: string, at: nat, end: nat)
    requires at <= end < |before| && end <= at + First(before[at..], NUL) < |before|
    requires after == before[end := NUL]
    ensures UpTo(after[at..], NUL) == UpTo(before[at..], NUL)[..end - at]
    ensures First(after[at..], NUL) == end - at
    ensures Within(before, after, at)
  {
    FirstFound(after[at..], NUL, end - at);
    assert after[at..][..end - at] == before[at..][..First(before[at..], NUL)][..end - at];
    assert before[at + First(before[at..], NUL)] == NUL;
  }

  lemma {:induction false} CutSpace(before: string, after: string, at: nat)
    requires at < |before| && at + First(before[at..], NUL) < |before|
    requires First(before[at..], NUL) > 0
    requires var end := at + First(before[at..], NUL);
      IsSpace(before[end - 1]) && after == before[end - 1 := NUL]
    ensures First(after[at..], NUL) == First(before[at..], NUL) - 1
    ensures DropSpaceEnd(UpTo(after[at..], NUL)) == DropSpaceEnd(UpTo(before[at..], NUL))
    ensures Within(before, after, at)
  {
    var n := First(before[at..], NUL);
    CutText(before, after, at, at + n - 1);
    assert UpTo(before[at..], NUL)[n - 1] == before[at + n - 1];
  }

  lemma {:induction false} NoSpaceEnd(s: string)
    requires First(s, NUL) > 0 ==> !IsSpace(s[First(s, NUL) - 1])
    ensures DropSpaceEnd(UpTo(s, NUL)) == UpTo(s, NUL)
  {
  }

  lemma {:induction false} WithinTrans(a: string, b: string, c: string, at: nat)
    requires Within(a, b, at) && Within(b, c, at) && First(b[at..], NUL) <= First(a[at..], NUL)
    ensures Within(a, c, at)
  {
  }

  method DropSpaceEndAt(buf: array<char>, at: nat)
    requires Ends(buf, at)
    modifies buf
    ensures Ends(buf, at)
    ensures TextAt(buf, at) == DropSpaceEnd(old(TextAt(buf, at)))
    ensures Within(old(buf[..]), buf[..], at)
  {
    ghost var first := buf[..];
    assert first[at..] == buf[at..];
    var end := at + First(buf[at..], NUL);
    hide First, UpTo, DropSpaceEnd, Within, Dropping;
    DroppingBegins(first, at);
    while end > at && IsSpace(buf[end - 1])
      invariant at <= end < buf.Length && Dropping(first, buf[..], at, end)
    {
      ghost var before := buf[..];
      buf[end - 1] := NUL;
      assert buf[..] == before[end - 1 := NUL];
      DroppingOn(first, before, at, end);
      end := end - 1;
    }
    DroppingEnds(first, buf[..], at, end);
    assert buf[..][at..] == buf[at..];
  }

  /** Some spaces have been cut from the end of a text, which now ends at a position. */
  ghost predicate Dropping(first: string, now: string, at: nat, end: nat) {
    && at <= |now| == |first|
    && end == at + First(now[at..], NUL) <= at + First(first[at..], NUL) < |first|
    && DropSpaceEnd(UpTo(now[at..], NUL)) == DropSpaceEnd(UpTo(first[at..], NUL))
    && Within(first, now, at)
  }

  lemma {:induction false} DroppingBegins(first: string, at: nat)
    requires at <= |first| && at + First(first[at..], NUL) < |first|
    ensures Dropping(first, first, at, at + First(first[at..], NUL))
  {
    hide First, UpTo, DropSpaceEnd;
  }

  lemma {:induction false} DroppingOn(first: string, before: string, at: nat, end: nat)
    requires Dropping(first, before, at, end) && at < end < |before| && IsSpace(before[end - 1])
    ensures Dropping(first, before[end - 1 := NUL], at, end - 1)
  {
    hide First, UpTo, DropSpaceEnd, Within;
    CutSpace(before, before[end - 1 := NUL], at);
    WithinTrans(first, before, before[end - 1 := NUL], at);
  }

  lemma {:induction false} DroppingEnds(first: string, now: string, at: nat, end: nat)
    requires Dropping(first, now, at, end) && (end > at ==> !IsSpace(now[end - 1]))
    ensures at + First(now[at..], NUL) < |now| && Within(first, now, at)
    ensures UpTo(now[at..], NUL) == DropSpaceEnd(UpTo(first[at..], NUL))
  {
    hide First, UpTo, DropSpaceEnd, Within;
    if end > at {
      assert now[at..][end - at - 1] == now[end - 1];
    }
    NoSpaceEnd(now[at..]);
  }

  /** Skips white space by moving the start, cuts white space at the end by writing NULs. */
  method TrimAt(buf: array<char>, at: nat) returns (start: nat)
    requires Ends(buf, at)
    modifies buf
    ensures at <= start && Ends(buf, start)
    ensures start + |TextAt(buf, start)| <= at + |old(TextAt(buf, at))|
    ensures TextAt(buf, start) == Trim(old(TextAt(buf, at)))
    ensures Within(old(buf[..]), buf[..], at)
  {
    ghost var before := buf[..];
    assert before[at..] == buf[at..];
    start := SkipSpaceAt(buf, at);
    assert before[start..] == buf[start..];
    if buf[start] != NUL {
      DropSpaceEndAt(buf, start);
    }
  }

  /** The outcome of stripping, k characters having been kept so far. */
  function StripFrom(text: string, k: nat, quoted: bool): string
    requires k <= |text|
  {
    text[..k] + StripComment(text[k..], quoted)
  }

  /** The first k characters are kept, and the rest is still to be looked at. */
  ghost predicate Scanned(text: string, k: nat, quoted: bool) {
    k <= |text| && StripFrom(text, k, quoted) == StripComment(text, false)
  }

  lemma {:induction false} ScanStep(text: string, k: nat, quoted: bool)
    requires Scanned(text, k, quoted) && k < |text|
    ensures var q := if text[k] == '"' then !quoted else quoted;
      if !q && (text[k] == '#' || text[k] == ';') then StripComment(text, false) == text[..k] else Scanned(text, k + 1, q)
  {
    hide StripComment;
    var q := if text[k] == '"' then !quoted else quoted;
    StripHead(text[k..], quoted);
    assert text[k..][0] == text[k] && text[k..][1..] == text[k + 1..];
    var rest := StripComment(text[k + 1..], q);
    KeepOne(text, k, rest);
    assert text[..k] + [] == text[..k];
  }

  lemma {:induction false} StripHead(s: string, quoted: bool)
    requires s != ""
    ensures var q := if s[0] == '"' then !quoted else quoted;
      StripComment(s, quoted) == if !q && (s[0] == '#' || s[0] == ';') then [] else [s[0]] + StripComment(s[1..], q)
  {
  }

  lemma {:induction false} KeepOne(text: string, k: nat, rest: string)
    requires k < |text|
    ensures text[..k] + ([text[k]] + rest) == text[..k + 1] + rest
  {
  }

  lemma {:induction false} ScanEnds(text: string, quoted: bool)
    ensures Scanned(text, 0, false)
    ensures Scanned(text, |text|, quoted) ==> StripComment(text, false) == text[..|text|]
  {
    assert text[0..] == text;
  }

  /** The text from position at on has been looked at up to position s. */
  ghost predicate Looked(all: string, at: nat, s: nat, text: string, quoted: bool) {
    && at <= s < |all| && s - at <= |text| && at + First(all[at..], NUL) < |all| && text == UpTo(all[at..], NUL)
    && (all[s] == NUL <==> s - at == |text|) && Scanned(text, s - at, quoted)
  }

  lemma {:induction false} EndsWithin(buf: array<char>, at: nat)
    requires Ends(buf, at)
    ensures at <= buf.Length
  {
  }

  lemma {:induction false} LookStarts(buf: array<char>, at: nat)
    requires Ends(buf, at)
    ensures Looked(buf[..], at, at, TextAt(buf, at), false)
  {
    hide First, UpTo, Looked;
    assert buf[..][at..] == buf[at..];
    LookBegins(buf[..], at);
  }

  lemma {:induction false} LookBegins(all: string, at: nat)
    requires at <= |all| && at + First(all[at..], NUL) < |all|
    ensures Looked(all, at, at, UpTo(all[at..], NUL), false)
  {
    TextChar(all, at, 0);
    ScanEnds(UpTo(all[at..], NUL), false);
    hide First, UpTo, Scanned;
  }

  lemma {:induction false} LookOn(all: string, at: nat, s: nat, text: string, quoted: bool)
    requires Looked(all, at, s, text, quoted) && all[s] != NUL
    ensures var q := if all[s] == '"' then !quoted else quoted;
      if !q && (all[s] == '#' || all[s] == ';') then StripComment(text, false) == text[..s - at]
      else Looked(all, at, s + 1, text, q)
  {
    hide First, UpTo, Scanned, StripComment;
    TextChar(all, at, s - at);
    ScanStep(text, s - at, quoted);
    TextChar(all, at, s + 1 - at);
  }

  lemma {:induction false} LookEnds(all: string, at: nat, s: nat, text: string, quoted: bool)
    requires Looked(all, at, s, text, quoted) && all[s] == NUL
    ensures StripComment(text, false) == text[..s - at]
  {
    hide First, UpTo, Scanned, StripComment;
    ScanEnds(text, quoted);
  }

  lemma {:induction false} LookRange(all: string, at: nat, s: nat, text: string, quoted: bool)
    requires Looked(all, at, s, text, quoted)
    ensures at <= s < |all| && s - at <= |text|
  {
    hide First, UpTo, Scanned;
  }

  /** The position of the first comment sign outside double quotes, or that of the NUL. */
  method CommentSign(buf: array<char>, at: nat) returns (s: nat)
    requires Ends(buf, at)
    ensures at <= s <= at + |TextAt(buf, at)|
    ensures StripComment(TextAt(buf, at), false) == TextAt(buf, at)[..s - at]
  {
    hide *;
    EndsWithin(buf, at);
    ghost var all, text := buf[..], TextAt(buf, at);
    LookStarts(buf, at);
    s := at;
    var inQuote := false;
    LookRange(all, at, s, text, inQuote);
    while buf[s] != NUL
      invariant at <= s < buf.Length && s - at <= |text|
      invariant Looked(all, at, s, text, inQuote)
      decreases buf.Length - s
    {
      LookOn(all, at, s, text, inQuote);
      inQuote := if buf[s] == '"' then !inQuote else inQuote;
      if !inQuote && (buf[s] == '#' || buf[s] == ';') {
        return;
      }
      s := s + 1;
      LookRange(all, at, s, text, inQuote);
    }
    LookEnds(all, at, s, text, inQuote);
  }

  lemma {:induction false} TextChar(all: string, at: nat, k: nat)
    requires at <= |all| && at + First(all[at..], NUL) < |all| && k <= |UpTo(all[at..], NUL)|
    ensures at + k < |all|
    ensures all[at + k] == NUL <==> k == |UpTo(all[at..], NUL)|
    ensures k < |UpTo(all[at..], NUL)| ==> UpTo(all[at..], NUL)[k] == all[at + k]
  {
    assert all[at..][k] == all[at + k];
  }

  /** Ends the text there. */
  method StripCommentAt(buf: array<char>, at: nat)
    requires Ends(buf, at)
    modifies buf
    ensures Ends(buf, at)
    ensures TextAt(buf, at) == StripComment(old(TextAt(buf, at)), false)
    ensures Within(old(buf[..]), buf[..], at)
  {
    ghost var before := buf[..];
    assert before[at..] == buf[at..];
    var s := CommentSign(buf, at);
    buf[s] := NUL;
    CutText(before, buf[..], at, s);
    assert buf[..][at..] == buf[at..];
  }

  // -------------------------------------------------------------------------
  // One line
  // -------------------------------------------------------------------------

  /** strchr: the position of a character in the text at a position, or -1. */
  method StrChr(buf: array<char>, at: nat, c: char) returns (i: int)
    requires Ends(buf, at) && c != NUL
    ensures var text := TextAt(buf, at);
      i == if First(text, c) == |text| then -1 else at + First(text, c)
    ensures i == -1 || (at <= i < at + First(buf[at..], NUL) && buf[i] == c)
  {
    ghost var text := TextAt(buf, at);
    assert forall j | at <= j < at + |text| :: text[j - at] == buf[j];
    i := at;
    while buf[i] != NUL && buf[i] != c
      invariant at <= i <= at + |text|
      invariant forall j | 0 <= j < i - at :: text[j] != c
      decreases buf.Length - i
    {
      i := i + 1;
    }
    FirstFound(text, c, i - at);
    if buf[i] == NUL {
      i := -1;
    }
  }

  /** Writing a NUL at a place within a text leaves a text on either side. */
  lemma {:induction false} CutTwo(before: string, after: string, at: nat, end: nat)
    requires at <= end < |before| && end < at + First(before[at..], NUL) < |before|
    requires after == before[end := NUL]
    ensures UpTo(after[at..], NUL) == UpTo(before[at..], NUL)[..end - at]
    ensures UpTo(after[end + 1..], NUL) == UpTo(before[at..], NUL)[end + 1 - at..]
    ensures at + First(after[at..], NUL) == end
    ensures end + 1 + First(after[end + 1..], NUL) < |after|
  {
    CutText(before, after, at, end);
    TextFrom(before, at, end + 1 - at);
    assert after[end + 1..] == before[end + 1..];
  }

  /** A text stays when nothing up to its NUL changes. */
  lemma {:induction false} TextStays(before: string, after: string, at: nat)
    requires at < |before| == |after| && at + First(before[at..], NUL) < |before|
    requires forall i | at <= i <= at + First(before[at..], NUL) :: after[i] == before[i]
    ensures UpTo(after[at..], NUL) == UpTo(before[at..], NUL)
    ensures First(after[at..], NUL) == First(before[at..], NUL)
  {
    var n := First(before[at..], NUL);
    assert before[at + n] == NUL;
    FirstFound(after[at..], NUL, n);
    assert after[at..][..n] == before[at..][..n];
  }

  method CutAt(buf: array<char>, at: nat, end: nat)
    requires Ends(buf, at) && at <= end < at + |TextAt(buf, at)|
    modifies buf
    ensures Ends(buf, at) && Ends(buf, end + 1)
    ensures TextAt(buf, at) == old(TextAt(buf, at))[..end - at]
    ensures TextAt(buf, end + 1) == old(TextAt(buf, at))[end + 1 - at..]
  {
    ghost var before := buf[..];
    assert before[at..] == buf[at..];
    buf[end] := NUL;
    CutTwo(before, buf[..], at, end);
    assert buf[..][at..] == buf[at..] && buf[..][end + 1..] == buf[end + 1..];
  }

  method ParseHeader(buf: array<char>, line: nat) returns (r: Line)
    requires Ends(buf, line) && buf[line] == '['
    modifies buf
    ensures var t := old(TextAt(buf, line));
      var i := First(t, ']');
      r == if i == |t| then Malformed else Header(Trim(t[1..i]))
  {
    var end := StrChr(buf, line, ']');
    if end == -1 {
      return Malformed;
    }
    CutAt(buf, line, end);
    TextFrom(buf[..], line, 1);
    assert buf[..][line..] == buf[line..] && buf[..][line + 1..] == buf[line + 1..];
    var name := TrimAt(buf, line + 1);
    r := Header(TextAt(buf, name));
  }

  method ParseAssign(buf: array<char>, line: nat) returns (r: Line)
    requires Ends(buf, line)
    modifies buf
    ensures var t := old(TextAt(buf, line));
      var i := First(t, '=');
      r == if i == |t| then Malformed else Assign(Trim(t[..i]), Trim(StripComment(t[i + 1..], false)))
  {
    hide First, UpTo, Trim, StripComment;
    var eq := StrChr(buf, line, '=');
    if eq == -1 {
      return Malformed;
    }
    r := AssignAt(buf, line, eq);
  }

  method AssignAt(buf: array<char>, line: nat, eq: nat) returns (r: Line)
    requires Ends(buf, line) && line <= eq < line + |TextAt(buf, line)|
    modifies buf
    ensures var t := old(TextAt(buf, line));
      r == Assign(Trim(t[..eq - line]), Trim(StripComment(t[eq + 1 - line..], false)))
  {
    hide First, UpTo, Trim, StripComment, TextAt, Ends;
    CutAt(buf, line, eq);
    StripBehind(buf, line, eq);
    var key := TrimFront(buf, line, eq);
    var value := TrimBehind(buf, key, eq);
    r := Assign(TextAt(buf, key), TextAt(buf, value));
  }

  /** Strips the text behind a cut; the one before it stays. */
  method StripBehind(buf: array<char>, line: nat, eq: nat)
    requires Ends(buf, line) && line + |TextAt(buf, line)| == eq && Ends(buf, eq + 1)
    modifies buf
    ensures Ends(buf, line) && Ends(buf, eq + 1)
    ensures TextAt(buf, line) == old(TextAt(buf, line))
    ensures TextAt(buf, eq + 1) == StripComment(old(TextAt(buf, eq + 1)), false)
  {
    hide First, UpTo, StripComment;
    ghost var before := buf[..];
    assert before[line..] == buf[line..];
    StripCommentAt(buf, eq + 1);
    TextStays(before, buf[..], line);
    assert buf[..][line..] == buf[line..];
  }

  /** Trims the text before a cut; the one behind it stays. */
  method TrimFront(buf: array<char>, line: nat, eq: nat) returns (key: nat)
    requires Ends(buf, line) && line + |TextAt(buf, line)| == eq && Ends(buf, eq + 1)
    modifies buf
    ensures Ends(buf, key) && key + |TextAt(buf, key)| <= eq && Ends(buf, eq + 1)
    ensures TextAt(buf, key) == Trim(old(TextAt(buf, line)))
    ensures TextAt(buf, eq + 1) == old(TextAt(buf, eq + 1))
  {
    hide First, UpTo, Trim;
    ghost var before := buf[..];
    assert before[line..] == buf[line..] && before[eq + 1..] == buf[eq + 1..];
    key := TrimAt(buf, line);
    TextStays(before, buf[..], eq + 1);
    assert buf[..][eq + 1..] == buf[eq + 1..];
  }

  /** Trims the text behind a cut; the one before it stays. */
  method TrimBehind(buf: array<char>, key: nat, eq: nat) returns (value: nat)
    requires Ends(buf, key) && key + |TextAt(buf, key)| <= eq && Ends(buf, eq + 1)
    modifies buf
    ensures value <= buf.Length && key <= buf.Length
    ensures TextAt(buf, value) == Trim(old(TextAt(buf, eq + 1)))
    ensures TextAt(buf, key) == old(TextAt(buf, key))
  {
    hide First, UpTo, Trim;
    ghost var before := buf[..];
    assert before[key..] == buf[key..];
    value := TrimAt(buf, eq + 1);
    TextStays(before, buf[..], key);
    assert buf[..][key..] == buf[key..];
  }

  /** Takes a line apart in place. */
  method ParseLine(buf: array<char>) returns (r: Line)
    requires Ends(buf, 0)
    modifies buf
    ensures r == Classify(old(TextAt(buf, 0)))
  {
    hide First, UpTo, Trim, StripComment;
    var line := TrimAt(buf, 0);
    TextChar(buf[..], line, 0);
    if buf[line] == NUL || buf[line] == '#' || buf[line] == ';' {
      return Blank;
    }
    if buf[line] == '[' {
      r := ParseHeader(buf, line);
    } else {
      r := ParseAssign(buf, line);
    }
  }

  // -------------------------------------------------------------------------
  // The configuration
  // -------------------------------------------------------------------------

  lemma {:induction false} LoadOn(done: seq<string>, chunk: string)
    ensures Load(done + [chunk]) == Advance(Load(done), chunk)
  {
    hide Advance;
    assert (done + [chunk])[..|done|] == done;
  }

  /** A failed load stays failed. */
  lemma {:induction false} FailedStays(done: seq<string>, more: seq<string>)
    requires Load(done).Failed?
    ensures Load(done + more).Failed?
  {
    hide Classify;
    if more == [] {
      assert done + more == done;
    } else {
      var n := |more| - 1;
      FailedStays(done, more[..n]);
      LoadOn(done + more[..n], more[n]);
      assert done + more == done + more[..n] + [more[n]];
    }
  }

  lemma {:induction false} ChunksStep(done: seq<string>, file: string)
    requires file != ""
    ensures var n := ChunkLength(file);
      done + Chunks(file) == done + [file[..n]] + Chunks(file[n..])
  {
  }

  lemma {:induction false} ChunksEnd(done: seq<string>)
    ensures done + Chunks("") == done
  {
  }

  class Config {
    const entries: array<Entry>
    var count: nat

    ghost predicate Valid()
      reads this, entries
    {
      entries.Length == MAX_ENTRIES && count <= MAX_ENTRIES
    }

    function Table(): seq<Entry>
      reads this, entries
      requires Valid()
    {
      entries[..count]
    }

    constructor ()
      ensures Valid() && fresh(entries) && Table() == []
    {
      entries := new Entry[MAX_ENTRIES](_ => Entry("", "", ""));
      count := 0;
    }

    method FindEntry(section: string, key: string) returns (i: int)
      requires Valid()
      ensures i == if Find(Table(), section, key) == count then -1 else Find(Table(), section, key)
    {
      i := 0;
      while i < count
        invariant 0 <= i <= count
        invariant forall j | 0 <= j < i :: entries[j].section != section || entries[j].key != key
      {
        if entries[i].section == section && entries[i].key == key {
          FoundAt(Table(), section, key, i);
          return i;
        }
        i := i + 1;
      }
      FoundAt(Table(), section, key, count);
      return -1;
    }

    /** The value stored for a key, if any. */
    method GetValue(section: string, key: string) returns (value: Option<string>)
      requires Valid()
      ensures value == Get(Table(), section, key)
    {
      var i := FindEntry(section, key);
      value := if i < 0 then None else Some(entries[i].value);
    }

    /** Overwrites or appends one entry; on failure the table is of no further use. */
    method Put(section: string, key: string, value: string) returns (ok: bool)
      requires Valid()
      modifies this, entries
      ensures Valid()
      ensures Assigned(Loaded(section, old(Table())), key, value) == if ok then Loaded(section, Table()) else Failed
    {
      if section == "" {
        return false;
      }
      var existing := FindEntry(section, key);
      if key == "" {
        return false;
      }
      var at := existing;
      if existing < 0 {
        if count >= MAX_ENTRIES {
          return false;
        }
        at := count;
        count := count + 1;
        if |key| >= KEY_MAX {
          return false;
        }
      }
      if |value| >= VALUE_MAX {
        return false;
      }
      ghost var before := old(Table());
      entries[at] := Entry(section, key, value);
      assert Table() == if existing < 0 then before + [Entry(section, key, value)] else before[at := Entry(section, key, value)];
      return true;
    }

    /** Loads a whole file, piece by piece as fgets delivers it. */
    method LoadFile(file: string) returns (ok: bool)
      requires Valid()
      modifies this, entries
      ensures Valid()
      ensures ok <==> Load(Chunks(file)).Loaded?
      ensures ok ==> Table() == Load(Chunks(file)).entries
    {
      var buf := new char[LINE_BUF];
      var section := "";
      count := 0;
      var rest := file;
      ghost var done: seq<string> := [];
      assert done + Chunks(rest) == Chunks(file) && Load(done) == Loaded(section, Table());
      hide Advance, Assigned, Classify, UpTo, Load, Chunks;
      while rest != ""
        invariant Valid() && fresh(buf) && buf.Length == LINE_BUF
        invariant Chunks(file) == done + Chunks(rest)
        invariant Load(done) == Loaded(section, Table())
        decreases |rest|
      {
        var n := ChunkLength(rest);
        var chunk := rest[..n];
        var ok';
        section, ok' := LoadLine(buf, chunk, section);
        LoadOn(done, chunk);
        ChunksStep(done, rest);
        done, rest := done + [chunk], rest[n..];
        if !ok' {
          FailedStays(done, Chunks(rest));
          return false;
        }
      }
      ChunksEnd(done);
      return true;
    }

    method LoadLine(buf: array<char>, chunk: string, section: string) returns (section': string, ok: bool)
      requires Valid() && |chunk| < buf.Length
      modifies this, entries, buf
      ensures Valid()
      ensures Advance(Loaded(section, old(Table())), chunk) == if ok then Loaded(section', Table()) else Failed
    {
      hide Classify, Assigned, UpTo, First;
      section' := section;
      FillLine(buf, chunk);
      var line := ParseLine(buf);
      match line {
        case Blank =>
          ok := true;
        case Malformed =>
          ok := false;
        case Header(name) =>
          ok := name != "" && |name| < SECTION_MAX;
          section' := if ok then name else section;
        case Assign(key, value) =>
          ok := Put(section, key, value);
      }
    }
  }

  /** fgets: the piece and a NUL behind it. */
  method FillLine(buf: array<char>, chunk: string)
    requires |chunk| < buf.Length
    modifies buf
    ensures Ends(buf, 0) && TextAt(buf, 0) == UpTo(chunk, NUL)
  {
    forall i | 0 <= i < |chunk| {
      buf[i] := chunk[i];
    }
    buf[|chunk|] := NUL;
    var n := First(chunk, NUL);
    FirstFound(buf[0..], NUL, n);
    assert buf[0..][..n] == chunk[..n];
  }

  lemma {:induction false} FoundAt(es: seq<Entry>, section: string, key: string, i: nat)
    requires i <= |es| && (i < |es| ==> es[i].section == section && es[i].key == key)
    requires forall j | 0 <= j < i :: es[j].section != section || es[j].key != key
    ensures Find(es, section, key) == i
  {
  }
}
