/** What a configuration file amounts to, from what its lines say: which files are read, and which assignment counts. */
module IniReading {
  import opened IniFile
  import opened Options
  import opened Sequences
  import opened Text

  /** The section named last before line n, none in the beginning. */
  function SectionAt(lines: seq<Line>, n: nat): string
    requires n <= |lines|
  {
    if n == 0 then ""
    else if lines[n - 1].Header? then lines[n - 1].name
    else SectionAt(lines, n - 1)
  }

  function KeyAt(lines: seq<Line>, i: nat): (string, string)
    requires i < |lines| && lines[i].Assign?
  {
    (SectionAt(lines, i), lines[i].key)
  }

  function KeysIn(lines: seq<Line>): set<(string, string)> {
    set i: nat | i < |lines| && lines[i].Assign? :: KeyAt(lines, i)
  }

  /**
   * A line that can be read where it stands: names of 1 to 63 characters for
   * sections and keys, values of at most 511, assignments only within a section.
   */
  predicate LineOk(lines: seq<Line>, i: nat)
    requires i < |lines|
  {
    match lines[i]
    case Blank => true
    case Malformed => false
    case Header(name) => 1 <= |name| <= 63
    case Assign(key, value) => SectionAt(lines, i) != "" && 1 <= |key| <= 63 && |value| <= 511
  }

  ghost predicate Readable(lines: seq<Line>) {
    |KeysIn(lines)| <= 128 && forall i: nat | i < |lines| :: LineOk(lines, i)
  }

  /** Line i assigns the key, and none of the later ones does. */
  ghost predicate LastFor(lines: seq<Line>, i: nat, key: (string, string)) {
    && i < |lines| && lines[i].Assign? && KeyAt(lines, i) == key
    && forall j: nat | i < j < |lines| && lines[j].Assign? :: KeyAt(lines, j) != key
  }

  /** How a reading of n lines stands. */
  ghost predicate Stands(lines: seq<Line>, m: Meaning) {
    && m.Meaning? && m.section == SectionAt(lines, |lines|) && m.table.Keys == KeysIn(lines)
    && forall i: nat, key | LastFor(lines, i, key) :: m.table[key] == lines[i].value
  }

  lemma {:induction false} SectionBelow(lines: seq<Line>, more: seq<Line>, n: nat)
    requires n <= |lines|
    ensures SectionAt(lines + more, n) == SectionAt(lines, n)
  {
    if n > 0 {
      assert (lines + more)[n - 1] == lines[n - 1];
      SectionBelow(lines, more, n - 1);
    }
  }

  lemma {:induction false} OneMoreLine(lines: seq<Line>, line: Line)
    ensures var all := lines + [line];
      && (forall i: nat | i < |lines| :: LineOk(all, i) == LineOk(lines, i))
      && (forall i: nat | i < |lines| && lines[i].Assign? :: KeyAt(all, i) == KeyAt(lines, i))
      && SectionAt(all, |lines|) == SectionAt(lines, |lines|)
  {
    forall n: nat | n <= |lines|
      ensures SectionAt(lines + [line], n) == SectionAt(lines, n)
    {
      SectionBelow(lines, [line], n);
    }
    hide SectionAt;
  }

  lemma {:induction false} KeysMore(lines: seq<Line>, line: Line)
    ensures KeysIn(lines + [line])
      == KeysIn(lines) + if line.Assign? then {(SectionAt(lines, |lines|), line.key)} else {}
  {
    OneMoreLine(lines, line);
    hide SectionAt;
    var all := lines + [line];
    assert forall i: nat | i < |lines| :: all[i] == lines[i];
    assert all[|lines|] == line;
    forall key | key in KeysIn(lines)
      ensures key in KeysIn(all)
    {
      var i: nat :| i < |lines| && lines[i].Assign? && KeyAt(lines, i) == key;
      assert KeyAt(all, i) == key;
    }
    if line.Assign? {
      assert KeyAt(all, |lines|) in KeysIn(all);
    }
  }

  lemma {:induction false} ReadableMore(lines: seq<Line>, line: Line)
    ensures var all := lines + [line];
      Readable(all) <==> Readable(lines) && LineOk(all, |lines|) && |KeysIn(all)| <= 128
  {
    OneMoreLine(lines, line);
    KeysMore(lines, line);
    hide KeysIn, LineOk, SectionAt;
    var all := lines + [line];
    Fewer(KeysIn(lines), KeysIn(all));
  }

  lemma {:induction false} Fewer<T>(a: set<T>, b: set<T>)
    requires a <= b
    ensures |a| <= |b|
  {
    assert b == a + (b - a);
  }

  lemma {:induction false} NotLast(lines: seq<Line>, line: Line, i: nat, key: (string, string))
    requires LastFor(lines + [line], i, key) && i < |lines|
    ensures LastFor(lines, i, key) && (lines + [line])[i] == lines[i]
    ensures line.Assign? ==> (SectionAt(lines, |lines|), line.key) != key
  {
    OneMoreLine(lines, line);
    hide SectionAt;
    var all := lines + [line];
    assert forall j: nat | j < |lines| :: all[j] == lines[j];
    assert all[|lines|] == line;
  }

  /** One more line is read. */
  function Taken(m: Meaning, line: Line): Meaning {
    if m.Rejected? then Rejected
    else match line
      case Blank => m
      case Malformed => Rejected
      case Header(name) => if 1 <= |name| <= 63 then m.(section := name) else Rejected
      case Assign(key, value) =>
        var table := m.table[(m.section, key) := value];
        if m.section != "" && 1 <= |key| <= 63 && |value| <= 511 && |table| <= 128 then m.(table := table) else Rejected
  }

  lemma {:induction false} OneRead(lines: seq<Line>, line: Line, m: Meaning)
    requires m.Meaning? && m.section == SectionAt(lines, |lines|)
    requires LineOk(lines + [line], |lines|)
    ensures Taken(m, line)
      == match line
         case Header(name) => m.(section := name)
         case Assign(key, value) =>
           if |m.table[(m.section, key) := value]| > 128 then Rejected else m.(table := m.table[(m.section, key) := value])
         case _ => m
    ensures SectionAt(lines + [line], |lines| + 1) == if line.Header? then line.name else m.section
  {
    OneMoreLine(lines, line);
    assert (lines + [line])[|lines|] == line;
  }

  lemma {:induction false} LastRead(lines: seq<Line>, line: Line, m: Meaning)
    requires Stands(lines, m) && LineOk(lines + [line], |lines|) && |KeysIn(lines + [line])| <= 128
    ensures Stands(lines + [line], Taken(m, line))
  {
    hide Taken, LineOk, KeysIn, SectionAt, KeyAt;
    var all := lines + [line];
    OneMoreLine(lines, line);
    OneRead(lines, line, m);
    KeysMore(lines, line);
    if line.Assign? {
      var table := m.table[(m.section, line.key) := line.value];
      assert table.Keys == KeysIn(all);
    }
    var m' := Taken(m, line);
    forall i: nat, key | LastFor(all, i, key)
      ensures key in m'.table && m'.table[key] == all[i].value
    {
      LastIsRead(lines, line, m, i, key);
    }
  }

  lemma {:induction false} LastIsRead(lines: seq<Line>, line: Line, m: Meaning, i: nat, key: (string, string))
    requires Stands(lines, m) && LineOk(lines + [line], |lines|)
    requires Taken(m, line).Meaning? && LastFor(lines + [line], i, key)
    ensures i <= |lines| && (lines + [line])[i].Assign?
    ensures key in Taken(m, line).table && Taken(m, line).table[key] == (lines + [line])[i].value
  {
    hide Taken, LineOk, SectionAt;
    var all := lines + [line];
    OneMoreLine(lines, line);
    OneRead(lines, line, m);
    if i < |lines| {
      NotLast(lines, line, i, key);
      KeyIsThere(lines, i, key);
    } else {
      assert all[i] == line;
    }
  }

  lemma {:induction false} KeyIsThere(lines: seq<Line>, i: nat, key: (string, string))
    requires LastFor(lines, i, key)
    ensures key in KeysIn(lines)
  {
    hide SectionAt;
  }

  lemma {:induction false} LineRead(lines: seq<Line>, line: Line, m: Meaning)
    requires m.Meaning? <==> Readable(lines)
    requires Readable(lines) ==> Stands(lines, m)
    ensures Taken(m, line).Meaning? <==> Readable(lines + [line])
    ensures Readable(lines + [line]) ==> Stands(lines + [line], Taken(m, line))
  {
    ReadableMore(lines, line);
    if m.Meaning? {
      KeysMore(lines, line);
      OneMoreLine(lines, line);
      if LineOk(lines + [line], |lines|) && |KeysIn(lines + [line])| <= 128 {
        LastRead(lines, line, m);
      }
    }
  }

  // -------------------------------------------------------------------------
  // Texts
  // -------------------------------------------------------------------------

  /** What a line says, up to a NUL. */
  function Says(line: string): Line {
    Classify(UpTo(line, NUL))
  }

  function Said(lines: seq<string>): (ls: seq<Line>)
    ensures |ls| == |lines|
  {
    if lines == [] then [] else Said(lines[..|lines| - 1]) + [Says(lines[|lines| - 1])]
  }

  lemma {:induction false} SaidAt(lines: seq<string>, i: nat)
    requires i < |lines|
    ensures Said(lines)[i] == Says(lines[i])
  {
    hide Says;
    if i < |lines| - 1 {
      SaidAt(lines[..|lines| - 1], i);
    }
  }

  lemma {:induction false} InterpretIs(m: Meaning, chunk: string)
    ensures Interpret(m, chunk) == Taken(m, Says(chunk))
  {
    hide Classify;
  }

  /** The map reading of a file is the reading of what its lines say. */
  lemma {:induction false} ReadingMeans(lines: seq<string>)
    ensures InterpretAll(lines).Meaning? <==> Readable(Said(lines))
    ensures Readable(Said(lines)) ==> Stands(Said(lines), InterpretAll(lines))
  {
    if lines == [] {
      NothingRead();
    } else {
      hide *;
      var n := |lines| - 1;
      ReadingMeans(lines[..n]);
      InterpretStep(lines);
      InterpretIs(InterpretAll(lines[..n]), lines[n]);
      LineRead(Said(lines[..n]), Says(lines[n]), InterpretAll(lines[..n]));
      SaidStep(lines);
    }
  }

  lemma {:induction false} SaidStep(lines: seq<string>)
    requires lines != []
    ensures Said(lines) == Said(lines[..|lines| - 1]) + [Says(lines[|lines| - 1])]
  {
    hide Says;
  }

  lemma {:induction false} InterpretStep(lines: seq<string>)
    requires lines != []
    ensures InterpretAll(lines) == Interpret(InterpretAll(lines[..|lines| - 1]), lines[|lines| - 1])
  {
    hide Interpret;
  }

  lemma {:induction false} NothingRead()
    ensures InterpretAll([]).Meaning? && Said([]) == [] && Readable([]) && Stands([], InterpretAll([]))
  {
    assert KeysIn([]) == {};
  }

  /**
   * The loader accepts a file exactly if all its lines are readable and it assigns
   * at most 128 keys. Then every key has the value that the last line for it
   * assigns, and what no line assigns is not there.
   */
  lemma {:induction false} LoadMeans(chunks: seq<string>, section: string, key: string)
    ensures Load(chunks).Loaded? <==> Readable(Said(chunks))
    ensures Load(chunks).Loaded? ==>
      var lines, found := Said(chunks), Get(Load(chunks).entries, section, key);
      && (forall i: nat | LastFor(lines, i, (section, key)) :: found == Some(lines[i].value))
      && (found == None <==> forall i: nat | i < |lines| && lines[i].Assign? :: KeyAt(lines, i) != (section, key))
  {
    hide InterpretAll, Load, Get, Said, SectionAt, TableOf, Readable, Unique, LastFor;
    LoadRefinesMap(chunks);
    ReadingMeans(chunks);
    if Load(chunks).Loaded? {
      var lines := Said(chunks);
      GetIsLookup(Load(chunks).entries, section, key);
      assert (section, key) in KeysIn(lines)
        <==> exists i: nat :: i < |lines| && lines[i].Assign? && KeyAt(lines, i) == (section, key);
      forall i: nat | LastFor(lines, i, (section, key))
        ensures (section, key) in KeysIn(lines)
      {
        KeyIsThere(lines, i, (section, key));
      }
    }
  }
}
