/** What a configuration file means, line by line: how it is cut up, how each line is read, and which assignment counts. */
module IniMeaning {
  import opened IniFile
  import opened Options
  import opened Sequences
  import opened Text

  // -------------------------------------------------------------------------
  // Blanks and comments
  // -------------------------------------------------------------------------

  predicate Blanks(s: string) {
    forall i | 0 <= i < |s| :: IsSpace(s[i])
  }

  predicate Bare(s: string) {
    s != "" ==> !IsSpace(s[0]) && !IsSpace(s[|s| - 1])
  }

  lemma {:induction false} SpaceDropped(a: string, s: string)
    requires Blanks(a) && (s != "" ==> !IsSpace(s[0]))
    ensures DropSpace(a + s) == s
  {
    var all := a + s;
    var t := DropSpace(all);
    assert forall i | 0 <= i < |a| :: all[i] == a[i];
    assert s != "" ==> all[|a|] == s[0];
    assert t != "" ==> t[0] == all[|all| - |t|];
  }

  lemma {:induction false} SpaceEndDropped(s: string, b: string)
    requires Blanks(b) && (s != "" ==> !IsSpace(s[|s| - 1]))
    ensures DropSpaceEnd(s + b) == s
  {
    var all := s + b;
    var t := DropSpaceEnd(all);
    assert forall i | |s| <= i < |all| :: all[i] == b[i - |s|];
    assert s != "" ==> all[|s| - 1] == s[|s| - 1];
    assert t != "" ==> t[|t| - 1] == all[|t| - 1];
  }

  /** Trimming takes blanks off both ends, and leaves none there. */
  lemma {:induction false} TrimTakes(s: string) returns (a: string, b: string)
    ensures s == a + Trim(s) + b && Blanks(a) && Blanks(b) && Bare(Trim(s))
  {
    hide DropSpace, DropSpaceEnd;
    var u := DropSpace(s);
    var t := DropSpaceEnd(u);
    a, b := s[..|s| - |u|], u[|t|..];
    assert s == a + u && u == t + b;
    assert t != "" ==> t[0] == u[0];
  }

  /** There is no other way to do that. */
  lemma {:induction false} TrimOnly(a: string, t: string, b: string)
    requires Blanks(a) && Blanks(b) && Bare(t)
    ensures Trim(a + t + b) == t
  {
    if t == "" {
      AllBlank(a + b);
      assert a + t + b == a + b;
    } else {
      assert a + t + b == a + (t + b);
      hide DropSpace, DropSpaceEnd;
      SpaceDropped(a, t + b);
      SpaceEndDropped(t, b);
    }
  }

  lemma {:induction false} AllBlank(s: string)
    requires Blanks(s)
    ensures Trim(s) == ""
  {
    SpaceDropped(s, "");
    assert s + "" == s;
  }

  function Quotes(s: string): nat {
    if s == "" then 0 else Quotes(s[..|s| - 1]) + if s[|s| - 1] == '"' then 1 else 0
  }

  lemma {:induction false} QuotesFirst(c: char, s: string)
    ensures Quotes([c] + s) == (if c == '"' then 1 else 0) + Quotes(s)
  {
    if s == "" {
      assert [c] + s == [c] && [c][..0] == "";
    } else {
      var init := s[..|s| - 1];
      QuotesFirst(c, init);
      assert ([c] + s)[..|s|] == [c] + init;
    }
  }

  predicate Sign(c: char) {
    c == '#' || c == ';'
  }

  lemma {:induction false} NoQuotes()
    ensures Quotes("") == 0
  {
  }

  function Parity(quoted: bool): nat {
    if quoted then 1 else 0
  }

  lemma {:induction false} CommentAt(s: string, quoted: bool)
    ensures var t := StripComment(s, quoted);
      |t| < |s| ==> Sign(s[|t|]) && Quotes(t) % 2 == Parity(quoted)
  {
    hide Quotes;
    NoQuotes();
    var t := StripComment(s, quoted);
    if t != "" {
      var q := if s[0] == '"' then !quoted else quoted;
      var u := StripComment(s[1..], q);
      assert t == [s[0]] + u;
      hide StripComment;
      CommentAt(s[1..], q);
      QuotesFirst(s[0], u);
    }
  }

  lemma {:induction false} NoCommentAt(s: string, quoted: bool, i: nat)
    requires i < |StripComment(s, quoted)| && Sign(s[i])
    ensures Quotes(s[..i]) % 2 != Parity(quoted)
  {
    hide Quotes;
    var q := if s[0] == '"' then !quoted else quoted;
    var rest := s[1..];
    assert s == [s[0]] + rest;
    if i > 0 {
      assert i - 1 < |StripComment(rest, q)|;
      hide StripComment;
      NoCommentAt(rest, q, i - 1);
      QuotesFirst(s[0], rest[..i - 1]);
      assert s[..i] == [s[0]] + rest[..i - 1];
    } else {
      NoQuotes();
      assert s[..0] == "";
    }
  }

  /** A comment begins at the first '#' or ';' that has an even number of double quotes before it. */
  lemma {:induction false} CommentExactly(s: string, n: nat)
    requires n <= |s|
    ensures StripComment(s, false) == s[..n] <==>
      && (n < |s| ==> Sign(s[n]) && Quotes(s[..n]) % 2 == 0)
      && forall i | 0 <= i < n && Sign(s[i]) :: Quotes(s[..i]) % 2 == 1
  {
    hide StripComment, Quotes;
    var m := |StripComment(s, false)|;
    assert StripComment(s, false) == s[..m];
    CommentAt(s, false);
    forall i | 0 <= i < m && Sign(s[i])
      ensures Quotes(s[..i]) % 2 == 1
    {
      NoCommentAt(s, false, i);
    }
    assert m == n ==> s[..m] == s[..n];
  }

  // -------------------------------------------------------------------------
  // Lines
  // -------------------------------------------------------------------------

  /** Empty lines, and those that begin with a comment sign, say nothing. */
  lemma {:induction false} BlankLine(t: string)
    ensures ClassifyTrimmed(t) == Blank <==> t == "" || Sign(t[0])
  {
    hide Trim, StripComment;
  }

  /** A line that begins with a bracket names a section up to the first closing bracket; without one it is malformed. */
  lemma {:induction false} HeaderLine(name: string, rest: string)
    requires ']' !in name
    ensures ClassifyTrimmed("[" + name + "]" + rest) == Header(Trim(name))
    ensures ClassifyTrimmed("[" + name) == Malformed
  {
    hide Trim, StripComment;
    var t := "[" + name + "]" + rest;
    FirstSplit("[" + name, ']', rest);
    assert t == ("[" + name) + [']'] + rest;
    assert t[1..|name| + 1] == name;
    assert First("[" + name, ']') == |name| + 1;
  }

  /** All other lines assign what is behind the first '=', less a comment, to what is before it; without one they are malformed. */
  lemma {:induction false} AssignLine(key: string, value: string)
    requires '=' !in key && (key != "" ==> key[0] != '[' && !Sign(key[0]))
    ensures ClassifyTrimmed(key + "=" + value) == Assign(Trim(key), Trim(StripComment(value, false)))
    ensures key != "" ==> ClassifyTrimmed(key) == Malformed
  {
    hide Trim, StripComment;
    var t := key + "=" + value;
    FirstSplit(key, '=', value);
    assert t == key + ['='] + value && t[0] == if key == "" then '=' else key[0];
    assert t[..|key|] == key && t[|key| + 1..] == value;
    assert First(key, '=') == |key|;
  }

  // -------------------------------------------------------------------------
  // Pieces of a file
  // -------------------------------------------------------------------------

  /** A piece ends with its first newline, if it has one, and holds at most 1023 characters. */
  predicate Piece(c: string) {
    1 <= |c| <= 1023 && forall i | 0 <= i < |c| - 1 :: c[i] != '\n'
  }

  /** Only the last piece may be shorter than 1023 characters without a newline. */
  predicate WellCut(cs: seq<string>) {
    && (forall i | 0 <= i < |cs| :: Piece(cs[i]))
    && (forall i | 0 <= i < |cs| - 1 :: Full(cs[i]))
  }

  predicate Full(c: string)
    requires Piece(c)
  {
    c[|c| - 1] == '\n' || |c| == 1023
  }

  /** A file is cut into pieces that make it up again. */
  lemma {:induction false} ChunksMakeUp(file: string)
    ensures Flatten(Chunks(file)) == file && WellCut(Chunks(file))
    decreases |file|
  {
    if file != "" {
      hide *;
      var n := ChunkLength(file);
      ChunksMakeUp(file[n..]);
      FirstPiece(file);
      ChunksStep(file);
      MadeUp(file, file[..n], Chunks(file[n..]));
    }
  }

  lemma {:induction false} ChunksStep(file: string)
    requires file != ""
    ensures Chunks(file) == [file[..ChunkLength(file)]] + Chunks(file[ChunkLength(file)..])
    ensures Chunks(file[ChunkLength(file)..]) != [] ==> ChunkLength(file) < |file|
  {
  }

  lemma {:induction false} MadeUp(file: string, c: string, rest: seq<string>)
    requires c <= file && Flatten(rest) == file[|c|..]
    requires Piece(c) && WellCut(rest) && (rest != [] ==> Full(c))
    ensures Flatten([c] + rest) == file && WellCut([c] + rest)
  {
    WellCutMore(c, rest);
    hide Piece, Full, WellCut;
    assert ([c] + rest)[1..] == rest;
    assert c == file[..|c|];
  }

  lemma {:induction false} WellCutMore(c: string, rest: seq<string>)
    requires Piece(c) && WellCut(rest) && (rest != [] ==> Full(c))
    ensures WellCut([c] + rest)
  {
    hide Piece, Full;
  }

  lemma {:induction false} FirstPiece(file: string)
    requires file != ""
    ensures var c := file[..ChunkLength(file)];
      Piece(c) && (ChunkLength(file) < |file| ==> Full(c))
  {
    var n := ChunkLength(file);
    assert forall k | 0 <= k < n - 1 :: file[..n][k] == file[k];
  }

  /** And there is no other way to cut it. */
  lemma {:induction false} ChunksOnly(cs: seq<string>)
    requires WellCut(cs)
    ensures Chunks(Flatten(cs)) == cs
  {
    if cs != [] {
      var c, rest := cs[0], Flatten(cs[1..]);
      ChunksOnly(cs[1..]);
      if |cs| > 1 {
        assert Full(c);
      } else {
        assert rest == "";
      }
      PieceFirst(c, rest);
      assert (c + rest)[..|c|] == c && (c + rest)[|c|..] == rest;
      assert cs == [c] + cs[1..];
      hide Flatten, ChunkLength, Piece, Full;
    }
  }

  lemma {:induction false} PieceFirst(c: string, rest: string)
    requires Piece(c) && (rest != "" ==> Full(c))
    ensures ChunkLength(c + rest) == |c|
  {
    var file := c + rest;
    var last := |c| - 1;
    if c[last] == '\n' {
      FirstFound(file, '\n', last);
    } else {
      assert forall k | 0 <= k <= last :: file[k] != '\n';
      assert First(file, '\n') >= |c|;
    }
  }
}
