/** Which configuration tables can be written out and loaded again: exactly those that any file can yield. */
module IniSaved {
  import opened IniFile
  import opened Sequences
  import opened Text

  /** A piece as fgets delivers it: a newline only at its end. */
  predicate IsPiece(c: string) {
    c != "" && '\n' !in c[..|c| - 1]
  }

  lemma {:induction false} ChunksArePieces(file: string)
    ensures forall i | 0 <= i < |Chunks(file)| :: IsPiece(Chunks(file)[i])
    decreases |file|
  {
    if file != "" {
      var n := ChunkLength(file);
      var first := file[..n];
      assert First(file, '\n') >= n - 1;
      assert forall k | 0 <= k < n - 1 :: first[..n - 1][k] == file[k];
      ChunksArePieces(file[n..]);
    }
  }

  // -------------------------------------------------------------------------
  // Trimmed parts of lines
  // -------------------------------------------------------------------------

  lemma {:induction false} PartLacks(t: string, a: nat, b: nat, c: char)
    requires a <= b <= |t| && c !in t
    ensures c !in t[a..b]
  {
  }

  lemma {:induction false} TrimIsPart(s: string) returns (a: nat, b: nat)
    ensures a <= b <= |s| && Trim(s) == s[a..b]
  {
    hide DropSpace, DropSpaceEnd;
    var t := DropSpace(s);
    var u := DropSpaceEnd(t);
    a := |s| - |t|;
    b := a + |u|;
    assert u == t[..|u|];
    assert t == s[a..];
    assert s[a..][..|u|] == s[a..b];
  }

  lemma {:induction false} TrimLacks(s: string, c: char)
    requires c !in s
    ensures c !in Trim(s)
  {
    var a, b := TrimIsPart(s);
    hide Trim;
    PartLacks(s, a, b, c);
  }

  lemma {:induction false} TrimIsTight(s: string)
    ensures Tight(Trim(s))
  {
    hide DropSpace, DropSpaceEnd;
    var t := DropSpace(s);
    var u := DropSpaceEnd(t);
    if u != "" {
      assert u[0] == t[0];
    }
  }

  /** A trimmed line holds neither newline nor NUL. */
  lemma {:induction false} LineIsPlain(c: string)
    requires IsPiece(c)
    ensures var t := Trim(UpTo(c, NUL));
      '\n' !in t && NUL !in t && Tight(t)
  {
    var line := UpTo(c, NUL);
    var n := |line|;
    assert line == c[..n];
    hide Trim, UpTo, First;
    TrimIsTight(line);
    TrimLacks(line, NUL);
    if n > 0 {
      assert c[..|c| - 1][..n - 1] == line[..n - 1];
      PartLacks(c[..|c| - 1], 0, n - 1, '\n');
      assert c[..|c| - 1][0..n - 1] == line[..n - 1];
      NewlineIsCut(line);
    }
  }

  lemma {:induction false} NewlineIsCut(line: string)
    requires line != "" && '\n' !in line[..|line| - 1]
    ensures '\n' !in Trim(line)
  {
    var n := |line| - 1;
    hide Trim, Tight;
    if line[n] != '\n' {
      assert line == line[..n] + [line[n]];
      TrimLacks(line, '\n');
    } else if Trim(line) != "" {
      var a, b := TrimIsPart(line);
      LastIsTrimmed(line, a, b);
      assert line[a..b] == line[..n][a..b];
      PartLacks(line[..n], a, b, '\n');
    }
  }

  lemma {:induction false} LastIsTrimmed(line: string, a: nat, b: nat)
    requires line != "" && line[|line| - 1] == '\n' && a <= b <= |line| && Trim(line) == line[a..b] && a < b
    ensures b < |line|
  {
    TrimIsTight(line);
    hide Trim;
    var t := line[a..b];
    assert t[b - a - 1] == line[b - 1];
  }

  /** What a comment sign cannot cut can be cut short from the end. */
  lemma {:induction false} CleanPrefix(x: string, y: string, quoted: bool)
    requires StripComment(x, quoted) == x && y <= x
    ensures StripComment(y, quoted) == y
  {
    if y != "" {
      var q := if x[0] == '"' then !quoted else quoted;
      assert StripComment(x[1..], q) == x[1..] by {
        assert x == [x[0]] + StripComment(x[1..], q);
      }
      CleanPrefix(x[1..], y[1..], q);
      assert y == [y[0]] + y[1..];
    }
  }

  lemma {:induction false} CleanDropSpace(x: string)
    requires StripComment(x, false) == x
    ensures StripComment(DropSpace(x), false) == DropSpace(x)
  {
    if x != "" && IsSpace(x[0]) {
      assert StripComment(x[1..], false) == x[1..] by {
        assert x == [x[0]] + StripComment(x[1..], false);
      }
      CleanDropSpace(x[1..]);
    }
  }

  lemma {:induction false} StripTwice(s: string, quoted: bool)
    ensures StripComment(StripComment(s, quoted), quoted) == StripComment(s, quoted)
  {
    if s != "" {
      var q := if s[0] == '"' then !quoted else quoted;
      StripTwice(s[1..], q);
      var r := StripComment(s[1..], q);
      assert ([s[0]] + r)[1..] == r;
    }
  }

  lemma {:induction false} ValueIsClean(s: string)
    ensures var v := Trim(StripComment(s, false));
      StripComment(v, false) == v
  {
    var r := StripComment(s, false);
    StripTwice(s, false);
    CleanDropSpace(r);
    CleanPrefix(DropSpace(r), Trim(r), false);
  }

  /** A key begins as its line does. */
  lemma {:induction false} KeyBegins(t: string, i: nat)
    requires t != "" && Tight(t) && 0 < i <= |t|
    ensures Trim(t[..i]) != "" && Trim(t[..i])[0] == t[0]
  {
    var s := t[..i];
    assert s[0] == t[0] && DropSpace(s) == s;
  }

  // -------------------------------------------------------------------------
  // Whatever is loaded can be written
  // -------------------------------------------------------------------------

  predicate SectionWritable(name: string) {
    name != "" && Tight(name) && |name| < SECTION_MAX && ']' !in name && '\n' !in name && NUL !in name
  }

  predicate KeyWritable(key: string) {
    key != "" && Tight(key) && '=' !in key && '\n' !in key && NUL !in key && key[0] !in "[#;"
  }

  predicate ValueWritable(value: string) {
    Tight(value) && StripComment(value, false) == value && '\n' !in value && NUL !in value
  }

  lemma {:induction false} WritableParts(e: Entry)
    ensures Writable(e) <==>
      && SectionWritable(e.section) && KeyWritable(e.key) && |e.key| < KEY_MAX
      && ValueWritable(e.value) && |e.value| < VALUE_MAX
  {
    hide StripComment, Tight;
  }

  lemma {:induction false} NameRead(t: string, i: nat)
    requires '\n' !in t && NUL !in t && t != "" && i == First(t, ']') < |t| && 0 < i
    requires Trim(t[1..i]) != "" && |Trim(t[1..i])| < SECTION_MAX
    ensures SectionWritable(Trim(t[1..i]))
  {
    hide Trim, Tight, First, Last;
    var s := t[1..i];
    TrimIsTight(s);
    BeforeFirst(t, ']', 1);
    PartLacks(t, 1, i, '\n');
    PartLacks(t, 1, i, NUL);
    TrimLacks(s, ']');
    TrimLacks(s, '\n');
    TrimLacks(s, NUL);
  }

  lemma {:induction false} BeforeFirst(t: string, x: char, a: nat)
    requires a <= First(t, x)
    ensures x !in t[a..First(t, x)]
  {
    assert t[a..First(t, x)] == UpTo(t, x)[a..];
    PartLacks(UpTo(t, x), a, First(t, x), x);
  }

  lemma {:induction false} KeyIsRead(t: string, i: nat)
    requires '\n' !in t && NUL !in t && t != "" && Tight(t) && t[0] !in "[#;" && i == First(t, '=') < |t|
    requires Trim(t[..i]) != ""
    ensures KeyWritable(Trim(t[..i]))
  {
    if i > 0 {
      KeyBegins(t, i);
    }
    hide Trim, Tight, First, Last;
    var s := t[..i];
    assert s == t[0..i];
    TrimIsTight(s);
    BeforeFirst(t, '=', 0);
    PartLacks(t, 0, i, '\n');
    PartLacks(t, 0, i, NUL);
    TrimLacks(s, '=');
    TrimLacks(s, '\n');
    TrimLacks(s, NUL);
  }

  lemma {:induction false} ValueIsRead(t: string, i: nat)
    requires '\n' !in t && NUL !in t && i < |t|
    ensures ValueWritable(Trim(StripComment(t[i + 1..], false)))
  {
    hide Trim, StripComment, Tight;
    var s := t[i + 1..];
    var r := StripComment(s, false);
    ValueIsClean(s);
    TrimIsTight(r);
    StrippedLacks(t, i, '\n');
    StrippedLacks(t, i, NUL);
    TrimLacks(r, '\n');
    TrimLacks(r, NUL);
  }

  lemma {:induction false} StrippedLacks(t: string, i: nat, c: char)
    requires i < |t| && c !in t
    ensures c !in StripComment(t[i + 1..], false)
  {
    hide StripComment;
    var s := t[i + 1..];
    var r := StripComment(s, false);
    assert r == s[..|r|] == t[i + 1..i + 1 + |r|];
    PartLacks(t, i + 1, i + 1 + |r|, c);
  }

  /** Its parts are writable, apart from the lengths that the loader checks. */
  ghost predicate PartsWritable(line: Line) {
    match line
    case Header(name) => name != "" && |name| < SECTION_MAX ==> SectionWritable(name)
    case Assign(key, value) => (key != "" ==> KeyWritable(key)) && ValueWritable(value)
    case _ => true
  }

  lemma {:induction false} TrimmedIsWritable(t: string)
    requires '\n' !in t && NUL !in t && Tight(t)
    ensures PartsWritable(ClassifyTrimmed(t))
  {
    hide Trim, StripComment, SectionWritable, KeyWritable, ValueWritable, Tight;
    if t != "" && t[0] == '[' {
      HeaderIsWritable(t);
    } else if t != "" && t[0] != '#' && t[0] != ';' {
      AssignIsWritable(t);
    }
  }

  lemma {:induction false} HeaderIsWritable(t: string)
    requires '\n' !in t && NUL !in t && t != "" && t[0] == '['
    ensures PartsWritable(ClassifyTrimmed(t))
  {
    var i := First(t, ']');
    if i < |t| && Trim(t[1..i]) != "" && |Trim(t[1..i])| < SECTION_MAX {
      NameRead(t, i);
    }
    hide Trim, SectionWritable;
  }

  lemma {:induction false} AssignIsWritable(t: string)
    requires '\n' !in t && NUL !in t && t != "" && Tight(t) && t[0] != '[' && t[0] != '#' && t[0] != ';'
    ensures PartsWritable(ClassifyTrimmed(t))
  {
    hide Trim, StripComment, KeyWritable, ValueWritable, Tight, First, ClassifyTrimmed;
    AssignClassified(t);
    var i := First(t, '=');
    if i < |t| {
      if Trim(t[..i]) != "" {
        assert t[0] !in "[#;";
        KeyIsRead(t, i);
      }
      ValueIsRead(t, i);
    }
  }

  lemma {:induction false} AssignClassified(t: string)
    requires t != "" && t[0] != '[' && t[0] != '#' && t[0] != ';'
    ensures var i := First(t, '=');
      ClassifyTrimmed(t) == if i == |t| then Malformed else Assign(Trim(t[..i]), Trim(StripComment(t[i + 1..], false)))
  {
    hide Trim, StripComment, First;
  }

  lemma {:induction false} LineIsWritable(c: string)
    requires IsPiece(c)
    ensures PartsWritable(Classify(UpTo(c, NUL)))
  {
    LineIsPlain(c);
    hide ClassifyTrimmed, PartsWritable, Trim;
    TrimmedIsWritable(Trim(UpTo(c, NUL)));
  }

  ghost predicate AllWritable(es: seq<Entry>) {
    forall i | 0 <= i < |es| :: Writable(es[i])
  }

  lemma {:induction false} AssignedIsWritable(p: Progress, key: string, value: string)
    requires p.Loaded? && AllWritable(p.entries) && (p.section != "" ==> SectionWritable(p.section))
    requires (key != "" ==> KeyWritable(key)) && ValueWritable(value)
    ensures var r := Assigned(p, key, value);
      r.Loaded? ==> AllWritable(r.entries) && r.section == p.section
  {
    var e := Entry(p.section, key, value);
    WritableParts(e);
    var i := Find(p.entries, p.section, key);
    if i < |p.entries| {
      WritableParts(p.entries[i]);
    }
    hide Writable, SectionWritable, KeyWritable, ValueWritable;
  }

  /** Whatever file is loaded, every entry can be written: loading never yields one that would not survive. */
  lemma {:induction false} LoadedIsWritable(chunks: seq<string>)
    requires forall i | 0 <= i < |chunks| :: IsPiece(chunks[i])
    ensures var p := Load(chunks);
      p.Loaded? ==> AllWritable(p.entries) && (p.section != "" ==> SectionWritable(p.section))
  {
    if chunks != [] {
      var n := |chunks| - 1;
      hide Advance, AllWritable, SectionWritable, IsPiece;
      LoadedIsWritable(chunks[..n]);
      if Load(chunks[..n]).Loaded? {
        AdvanceIsWritable(Load(chunks[..n]), chunks[n]);
      } else {
        FailedAdvance(chunks[n]);
      }
    }
  }

  lemma {:induction false} FailedAdvance(chunk: string)
    ensures Advance(Failed, chunk) == Failed
  {
  }

  lemma {:induction false} AdvanceIsWritable(p: Progress, chunk: string)
    requires p.Loaded? && AllWritable(p.entries) && (p.section != "" ==> SectionWritable(p.section)) && IsPiece(chunk)
    ensures var r := Advance(p, chunk);
      r.Loaded? ==> AllWritable(r.entries) && (r.section != "" ==> SectionWritable(r.section))
  {
    LineIsWritable(chunk);
    hide AllWritable, SectionWritable, KeyWritable, ValueWritable, Classify, Assigned, UpTo;
    match Classify(UpTo(chunk, NUL))
    case Assign(key, value) => AssignedIsWritable(p, key, value);
    case _ =>
  }

  /** A table survives being written and loaded if and only if it is one of unique, writable entries, at most 128. */
  lemma {:induction false} SurvivesExactly(es: seq<Entry>)
    ensures var p := Load(Chunks(Flatten(Lines(es))));
      p.Loaded? && p.entries == es <==> AllWritable(es) && Unique(es) && |es| <= MAX_ENTRIES
  {
    var chunks := Chunks(Flatten(Lines(es)));
    ChunksArePieces(Flatten(Lines(es)));
    LoadedIsWritable(chunks);
    LoadRefinesMap(chunks);
    if AllWritable(es) && Unique(es) && |es| <= MAX_ENTRIES {
      WrittenIsLoaded(es);
    }
  }

  /** So what was loaded from any file can be saved and loaded again, as often as one likes. */
  lemma {:induction false} LoadedSurvives(file: string)
    ensures var p := Load(Chunks(file));
      p.Loaded? ==>
        var q := Load(Chunks(Flatten(Lines(p.entries))));
        q.Loaded? && q.entries == p.entries
  {
    ChunksArePieces(file);
    LoadedIsWritable(Chunks(file));
    LoadRefinesMap(Chunks(file));
    if Load(Chunks(file)).Loaded? {
      SurvivesExactly(Load(Chunks(file)).entries);
    }
  }
}
