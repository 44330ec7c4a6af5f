/** What a configuration file means: lines, entries, and the map that the last assignments define. */
module IniFile {
  import opened Options
  import opened Sequences
  import opened Text

  const MAX_ENTRIES := 128
  const SECTION_MAX := 64
  const KEY_MAX := 64
  const VALUE_MAX := 512
  const LINE_BUF := 1024

  datatype Entry = Entry(section: string, key: string, value: string)
  datatype Line = Blank | Header(name: string) | Assign(key: string, value: string) | Malformed

  // -------------------------------------------------------------------------
  // Lines
  // -------------------------------------------------------------------------

  function DropSpace(s: string): (t: string)
    ensures |t| <= |s| && t == s[|s| - |t|..]
    ensures t != "" ==> !IsSpace(t[0])
    ensures forall i | 0 <= i < |s| - |t| :: IsSpace(s[i])
  {
    if s != "" && IsSpace(s[0]) then DropSpace(s[1..]) else s
  }

  function DropSpaceEnd(s: string): (t: string)
    ensures t <= s
    ensures t != "" ==> !IsSpace(t[|t| - 1])
    ensures forall i | |t| <= i < |s| :: IsSpace(s[i])
  {
    if s != "" && IsSpace(s[|s| - 1]) then DropSpaceEnd(s[..|s| - 1]) else s
  }

  function Trim(s: string): string {
    DropSpaceEnd(DropSpace(s))
  }

  /** The part before the first '#' or ';' that is not between double quotes. */
  function StripComment(s: string, quoted: bool): (t: string)
    ensures t <= s
  {
    if s == "" then ""
    else
      var q := if s[0] == '"' then !quoted else quoted;
      if !q && (s[0] == '#' || s[0] == ';') then "" else [s[0]] + StripComment(s[1..], q)
  }

  function Classify(line: string): Line {
    ClassifyTrimmed(Trim(line))
  }

  function ClassifyTrimmed(t: string): Line {
    if t == "" || t[0] == '#' || t[0] == ';' then Blank
    else if t[0] == '[' then
      var i := First(t, ']');
      if i == |t| then Malformed else Header(Trim(t[1..i]))
    else
      var i := First(t, '=');
      if i == |t| then Malformed else Assign(Trim(t[..i]), Trim(StripComment(t[i + 1..], false)))
  }

  /** The pieces that fgets delivers: up to and including a newline, or as much as the buffer holds. */
  function Chunks(file: string): seq<string>
    decreases |file|
  {
    if file == "" then [] else [file[..ChunkLength(file)]] + Chunks(file[ChunkLength(file)..])
  }

  function ChunkLength(file: string): (n: nat)
    requires file != ""
    ensures 0 < n <= |file| && n < LINE_BUF
  {
    var i := First(file, '\n');
    var n := if i == |file| then i else i + 1;
    if n < LINE_BUF then n else LINE_BUF - 1
  }

  // -------------------------------------------------------------------------
  // Entries: what the loader builds
  // -------------------------------------------------------------------------

  /** The position of an entry, or |es|. */
  function Find(es: seq<Entry>, section: string, key: string): (i: nat)
    ensures i <= |es|
    ensures i < |es| ==> es[i].section == section && es[i].key == key
    ensures forall j | 0 <= j < i :: es[j].section != section || es[j].key != key
  {
    if es == [] || (es[0].section == section && es[0].key == key) then 0 else 1 + Find(es[1..], section, key)
  }

  function Get(es: seq<Entry>, section: string, key: string): Option<string> {
    var i := Find(es, section, key);
    if i == |es| then None else Some(es[i].value)
  }

  datatype Progress = Failed | Loaded(section: string, entries: seq<Entry>)

  function Assigned(p: Progress, key: string, value: string): Progress
    requires p.Loaded?
  {
    var i := Find(p.entries, p.section, key);
    if p.section == "" || key == "" || |value| >= VALUE_MAX then Failed
    else if i < |p.entries| then p.(entries := p.entries[i := Entry(p.section, key, value)])
    else if |p.entries| >= MAX_ENTRIES || |key| >= KEY_MAX then Failed
    else p.(entries := p.entries + [Entry(p.section, key, value)])
  }

  function Advance(p: Progress, chunk: string): Progress {
    if p.Failed? then Failed
    else match Classify(UpTo(chunk, NUL))
      case Blank => p
      case Malformed => Failed
      case Header(name) => if name == "" || |name| >= SECTION_MAX then Failed else p.(section := name)
      case Assign(key, value) => Assigned(p, key, value)
  }

  function Load(chunks: seq<string>): Progress {
    if chunks == [] then Loaded("", []) else Advance(Load(chunks[..|chunks| - 1]), chunks[|chunks| - 1])
  }

  // -------------------------------------------------------------------------
  // The reference: a map in which the last assignment wins
  // -------------------------------------------------------------------------

  type Table = map<(string, string), string>
  datatype Meaning = Rejected | Meaning(section: string, table: Table)

  function Interpret(m: Meaning, chunk: string): Meaning {
    if m.Rejected? then Rejected
    else match Classify(UpTo(chunk, NUL))
      case Blank => m
      case Malformed => Rejected
      case Header(name) => if name == "" || |name| >= SECTION_MAX then Rejected else m.(section := name)
      case Assign(key, value) =>
        var table := m.table[(m.section, key) := value];
        if m.section == "" || key == "" || |key| >= KEY_MAX || |value| >= VALUE_MAX || |table| > MAX_ENTRIES then Rejected
        else m.(table := table)
  }

  function InterpretAll(chunks: seq<string>): Meaning {
    if chunks == [] then Meaning("", map[])
    else Interpret(InterpretAll(chunks[..|chunks| - 1]), chunks[|chunks| - 1])
  }

  function TableOf(es: seq<Entry>): Table {
    if es == [] then map[]
    else TableOf(es[..|es| - 1])[(es[|es| - 1].section, es[|es| - 1].key) := es[|es| - 1].value]
  }

  ghost predicate Unique(es: seq<Entry>) {
    forall i, j | 0 <= i < j < |es| :: es[i].section != es[j].section || es[i].key != es[j].key
  }

  ghost predicate ShortKeys(es: seq<Entry>) {
    forall i | 0 <= i < |es| :: |es[i].key| < KEY_MAX
  }

  lemma {:induction false} TableDomain(es: seq<Entry>, section: string, key: string)
    ensures (section, key) in TableOf(es) <==> Find(es, section, key) < |es|
  {
    if es != [] {
      var n := |es| - 1;
      TableDomain(es[..n], section, key);
      assert forall j | 0 <= j < n :: es[..n][j] == es[j];
    }
  }

  /** Looking an entry up in the table is looking it up in the map. */
  lemma {:induction false} GetIsLookup(es: seq<Entry>, section: string, key: string)
    requires Unique(es)
    ensures Get(es, section, key)
      == if (section, key) in TableOf(es) then Some(TableOf(es)[(section, key)]) else None
  {
    TableDomain(es, section, key);
    if es != [] {
      var n := |es| - 1;
      assert forall j | 0 <= j < n :: es[..n][j] == es[j];
      GetIsLookup(es[..n], section, key);
    }
  }

  lemma {:induction false} TableSize(es: seq<Entry>)
    requires Unique(es)
    ensures |TableOf(es)| == |es|
  {
    if es != [] {
      var n := |es| - 1;
      assert forall j | 0 <= j < n :: es[..n][j] == es[j];
      TableSize(es[..n]);
      TableDomain(es[..n], es[n].section, es[n].key);
    }
  }

  lemma {:induction false} TableReplaced(es: seq<Entry>, i: nat, value: string)
    requires Unique(es) && i < |es|
    ensures var e := Entry(es[i].section, es[i].key, value);
      TableOf(es[i := e]) == TableOf(es)[(e.section, e.key) := value]
  {
    var n := |es| - 1;
    var e := Entry(es[i].section, es[i].key, value);
    if i == n {
      assert es[i := e][..n] == es[..n];
    } else {
      assert es[i := e][..n] == es[..n][i := e];
      assert forall j | 0 <= j < n :: es[..n][j] == es[j];
      TableReplaced(es[..n], i, value);
    }
  }

  lemma {:induction false} UniqueReplaced(es: seq<Entry>, i: nat, e: Entry)
    requires Unique(es) && ShortKeys(es) && i < |es| && e.section == es[i].section && e.key == es[i].key
    ensures Unique(es[i := e]) && ShortKeys(es[i := e])
  {
  }

  lemma {:induction false} UniqueAppended(es: seq<Entry>, e: Entry)
    requires Unique(es) && ShortKeys(es) && |e.key| < KEY_MAX
    requires forall j | 0 <= j < |es| :: es[j].section != e.section || es[j].key != e.key
    ensures Unique(es + [e]) && ShortKeys(es + [e]) && TableOf(es + [e]) == TableOf(es)[(e.section, e.key) := e.value]
  {
    assert (es + [e])[..|es|] == es;
  }

  lemma {:induction false} PutRefines(es: seq<Entry>, e: Entry)
    requires Unique(es) && ShortKeys(es) && |e.key| < KEY_MAX
    ensures var i := Find(es, e.section, e.key);
      var es' := if i < |es| then es[i := e] else es + [e];
      Unique(es') && ShortKeys(es') && TableOf(es') == TableOf(es)[(e.section, e.key) := e.value]
  {
    hide TableOf, Unique, ShortKeys;
    var i := Find(es, e.section, e.key);
    if i < |es| {
      UniqueReplaced(es, i, e);
      TableReplaced(es, i, e.value);
    } else {
      UniqueAppended(es, e);
    }
  }

  lemma {:induction false} AssignedRefines(p: Progress, key: string, value: string)
    requires p.Loaded? && Unique(p.entries) && ShortKeys(p.entries) && |p.entries| <= MAX_ENTRIES
    ensures var q := Assigned(p, key, value);
      var table := TableOf(p.entries)[(p.section, key) := value];
      if p.section == "" || key == "" || |key| >= KEY_MAX || |value| >= VALUE_MAX || |table| > MAX_ENTRIES then q == Failed
      else && q.Loaded? && q.section == p.section && |q.entries| <= MAX_ENTRIES
           && Unique(q.entries) && ShortKeys(q.entries) && TableOf(q.entries) == table
  {
    var es, e := p.entries, Entry(p.section, key, value);
    var i := Find(es, p.section, key);
    if |key| < KEY_MAX {
      PutRefines(es, e);
      TableSize(if i < |es| then es[i := e] else es + [e]);
    }
  }

  /**
   * The loader refines the map: it fails exactly when the map reading fails, and
   * otherwise its entries are unique, at most 128, and mean the map in which
   * every key has the value last assigned to it.
   */
  lemma {:induction false} LoadRefinesMap(chunks: seq<string>)
    ensures Load(chunks).Failed? <==> InterpretAll(chunks).Rejected?
    ensures Load(chunks).Loaded? ==>
      var p, m := Load(chunks), InterpretAll(chunks);
      && p.section == m.section
      && Unique(p.entries) && ShortKeys(p.entries) && |p.entries| <= MAX_ENTRIES
      && TableOf(p.entries) == m.table
  {
    if chunks != [] {
      var n := |chunks| - 1;
      LoadRefinesMap(chunks[..n]);
      var p := Load(chunks[..n]);
      if p.Loaded? {
        match Classify(UpTo(chunks[n], NUL))
        case Assign(key, value) =>
          AssignedRefines(p, key, value);
        case _ =>
      }
    }
  }

  // -------------------------------------------------------------------------
  // Writing a table out and loading it again
  // -------------------------------------------------------------------------

  predicate Tight(s: string) {
    s == "" || (!IsSpace(s[0]) && !IsSpace(s[|s| - 1]))
  }

  /** The entry survives being written as a section line and a key line. */
  predicate Writable(e: Entry) {
    && e.section != "" && Tight(e.section) && |e.section| < SECTION_MAX && ']' !in e.section
    && '\n' !in e.section && NUL !in e.section
    && e.key != "" && Tight(e.key) && |e.key| < KEY_MAX && '=' !in e.key
    && '\n' !in e.key && NUL !in e.key && e.key[0] !in "[#;"
    && Tight(e.value) && |e.value| < VALUE_MAX && StripComment(e.value, false) == e.value
    && '\n' !in e.value && NUL !in e.value
  }

  function SectionText(e: Entry): string {
    "[" + (e.section + "]")
  }

  function KeyText(e: Entry): string {
    e.key + "=" + e.value
  }

  function Lines(es: seq<Entry>): seq<string> {
    if es == [] then []
    else
      var e := es[|es| - 1];
      Lines(es[..|es| - 1]) + [SectionText(e) + "\n", KeyText(e) + "\n"]
  }

  function Flatten(lines: seq<string>): string {
    if lines == [] then "" else lines[0] + Flatten(lines[1..])
  }

  predicate IsLine(line: string) {
    0 < |line| < LINE_BUF && First(line, '\n') == |line| - 1
  }

  /** Complete lines that fit the line buffer are delivered one by one. */
  lemma {:induction false} ChunksOfLines(lines: seq<string>)
    requires forall i | 0 <= i < |lines| :: IsLine(lines[i])
    ensures Chunks(Flatten(lines)) == lines
  {
    if lines != [] {
      var line, rest := lines[0], Flatten(lines[1..]);
      ChunksOfLines(lines[1..]);
      assert line == line[..|line| - 1] + ['\n'];
      FirstSplit(line[..|line| - 1], '\n', rest);
      assert (line + rest)[..|line|] == line && (line + rest)[|line|..] == rest;
    }
  }

  lemma {:induction false} TrimLine(core: string)
    requires core != "" && Tight(core)
    ensures Trim(core + "\n") == core && Trim(core) == core
  {
    var s := core + "\n";
    assert IsSpace(s[|core|]) && !IsSpace(s[0]) && !IsSpace(s[|core| - 1]);
    assert DropSpace(s) == s && DropSpace(core) == core;
    assert |DropSpaceEnd(s)| == |core|;
  }

  lemma {:induction false} SectionClassified(section: string)
    requires ']' !in section
    ensures ClassifyTrimmed("[" + (section + "]")) == Header(Trim(section))
  {
    hide Trim;
    var t := "[" + (section + "]");
    assert t == ("[" + section) + [']'] + [];
    FirstSplit("[" + section, ']', []);
    assert t[1..|t| - 1] == section;
  }

  lemma {:induction false} SectionRead(e: Entry)
    requires Writable(e)
    ensures Classify(UpTo(SectionText(e) + "\n", NUL)) == Header(e.section)
  {
    var t := SectionText(e);
    assert NUL !in t + "\n" && Tight(t);
    hide ClassifyTrimmed, Trim, Writable;
    TrimLine(t);
    TrimLine(e.section);
    SectionClassified(e.section);
  }

  lemma {:induction false} KeyClassified(key: string, value: string)
    requires key != "" && '=' !in key && key[0] !in "[#;"
    ensures ClassifyTrimmed(key + "=" + value) == Assign(Trim(key), Trim(StripComment(value, false)))
  {
    hide Trim, StripComment;
    var t := key + "=" + value;
    FirstSplit(key, '=', value);
    assert t[..|key|] == key && t[|key| + 1..] == value;
    assert t[0] == key[0];
    assert '[' in "[#;" && '#' in "[#;" && ';' in "[#;";
  }

  lemma {:induction false} KeyRead(e: Entry)
    requires Writable(e)
    ensures Classify(UpTo(KeyText(e) + "\n", NUL)) == Assign(e.key, e.value)
  {
    var t := KeyText(e);
    assert NUL !in t + "\n" && Tight(t);
    assert Trim("") == "";
    hide ClassifyTrimmed, Trim, StripComment;
    TrimLine(t);
    TrimLine(e.key);
    if e.value != "" {
      TrimLine(e.value);
    }
    KeyClassified(e.key, e.value);
  }

  lemma {:induction false} EndsLine(text: string)
    requires '\n' !in text && |text| + 1 < LINE_BUF
    ensures IsLine(text + "\n")
  {
    FirstSplit(text, '\n', []);
    assert text + "\n" == text + ['\n'] + [];
  }

  lemma {:induction false} WrittenLines(es: seq<Entry>)
    requires forall i | 0 <= i < |es| :: Writable(es[i])
    ensures forall i | 0 <= i < |Lines(es)| :: IsLine(Lines(es)[i])
  {
    if es != [] {
      var e := es[|es| - 1];
      WrittenLines(es[..|es| - 1]);
      assert Writable(e);
      EndsLine(SectionText(e));
      EndsLine(KeyText(e));
      hide IsLine;
    }
  }

  lemma {:induction false} EntryRead(p: Progress, e: Entry)
    requires p.Loaded? && Writable(e)
    requires Find(p.entries, e.section, e.key) == |p.entries| < MAX_ENTRIES
    ensures Advance(Advance(p, SectionText(e) + "\n"), KeyText(e) + "\n") == Loaded(e.section, p.entries + [e])
  {
    hide Classify, UpTo, SectionText, KeyText;
    SectionRead(e);
    KeyRead(e);
  }

  lemma {:induction false} LinesLoaded(es: seq<Entry>)
    requires Unique(es) && |es| <= MAX_ENTRIES
    requires forall i | 0 <= i < |es| :: Writable(es[i])
    ensures Load(Lines(es)).Loaded? && Load(Lines(es)).entries == es
  {
    if es == [] {
      assert Lines(es) == [];
    } else {
      hide Advance, SectionText, KeyText, Unique, Writable, Find, Load;
      var n := |es| - 1;
      NotFoundBefore(es);
      LinesLoaded(es[..n]);
      LoadTwo(Lines(es[..n]), SectionText(es[n]) + "\n", KeyText(es[n]) + "\n");
      EntryRead(Load(Lines(es[..n])), es[n]);
      Snoc(es);
    }
  }

  lemma {:induction false} NotFoundBefore(es: seq<Entry>)
    requires es != [] && Unique(es)
    ensures var n := |es| - 1;
      Unique(es[..n]) && Find(es[..n], es[n].section, es[n].key) == n
  {
    var n := |es| - 1;
    assert forall j | 0 <= j < n :: es[..n][j] == es[j];
  }

  lemma {:induction false} LoadTwo(lines: seq<string>, a: string, b: string)
    ensures Load(lines + [a, b]) == Advance(Advance(Load(lines), a), b)
  {
    hide Advance;
    assert (lines + [a, b])[..|lines| + 1] == lines + [a];
    assert (lines + [a])[..|lines|] == lines;
  }

  /** A table of at most 128 unique writable entries, written out as a file, loads as the same table. */
  lemma {:induction false} WrittenIsLoaded(es: seq<Entry>)
    requires Unique(es) && |es| <= MAX_ENTRIES
    requires forall i | 0 <= i < |es| :: Writable(es[i])
    ensures var p := Load(Chunks(Flatten(Lines(es))));
      p.Loaded? && p.entries == es
  {
    WrittenLines(es);
    ChunksOfLines(Lines(es));
    LinesLoaded(es);
  }
}
