/** The INI-style configuration reader (`ConfFile`): `[section]` headers,
    `key=value` lines, `@file` includes and `#`/`;` comments, read into a
    table of sections whose entries keep duplicate keys. */
module Conf {
  import opened Common

  /** The entries of one section (an `unordered_multimap`), kept in the
      order they were inserted. */
  type Entries = seq<(string, string)>

  /** The loaded sections by name (`m_mSections`). */
  type Sections = map<string, Entries>

  /** Files by name, each as the lines `getline` yields from it. A name
      that is absent is a file that cannot be opened. */
  type FileSystem = map<string, seq<string>>

  const COMMENT_START: set<char> := {'#', ';', '\r', '\n'}
  const TRAILING_SPACE: set<char> := {' ', '\t', '\r', '\n'}
  const LEADING_SPACE: set<char> := {' ', '\t'}

  // ---------------------------------------------------------------------
  // Line cleaning and classification
  // ---------------------------------------------------------------------

  /** `TrimString`: trailing blanks, tabs and line ends removed, then
      leading blanks and tabs. */
  function TrimString(s: string): (r: string)
    ensures |r| <= |s|
  {
    TrimLeft(TrimRight(s, TRAILING_SPACE), LEADING_SPACE)
  }

  /** The trimmed string is the piece of `s` between a run of leading
      blanks and tabs and a run of trailing blanks, tabs and line ends, and
      it neither starts nor ends with one of those. */
  lemma TrimStringShape(s: string)
    ensures var right := TrimRight(s, TRAILING_SPACE);
            var r := TrimString(s);
            var k := |right| - |r|;
            && r == s[k..|right|]
            && (forall i :: 0 <= i < k ==> s[i] in LEADING_SPACE)
            && (forall i :: |right| <= i < |s| ==> s[i] in TRAILING_SPACE)
            && (|r| > 0 ==> r[0] !in LEADING_SPACE && r[|r| - 1] !in TRAILING_SPACE)
  {
    var right := TrimRight(s, TRAILING_SPACE);
    TrimRightShape(s, TRAILING_SPACE);
    var r := TrimLeft(right, LEADING_SPACE);
    TrimLeftShape(right, LEADING_SPACE);
    var k := |right| - |r|;
    assert forall i :: 0 <= i < k ==> s[i] == right[i];
  }

  lemma {:induction false} TrimStringIdempotent(s: string)
    ensures TrimString(TrimString(s)) == TrimString(s)
  {
    var t := TrimString(s);
    TrimStringShape(s);
    TrimRightNoop(t, TRAILING_SPACE);
    TrimLeftNoop(t, LEADING_SPACE);
  }

  /** A line with its comment cut off and trimmed (ConfFile.cpp:162-164). */
  function CleanLine(line: string): (r: string)
    ensures |r| <= |line|
  {
    TrimString(CutAt(line, COMMENT_START))
  }

  /** A cleaned line holds no comment character. */
  lemma CleanLineHasNoComment(line: string)
    ensures forall i :: 0 <= i < |CleanLine(line)| ==> CleanLine(line)[i] !in COMMENT_START
  {
    var cut := CutAt(line, COMMENT_START);
    CutAtShape(line, COMMENT_START);
    TrimStringShape(cut);
  }

  /** What a cleaned line is, given whether a section is open. */
  datatype LineKind =
    | Blank
    | Header(name: string)
    | KeyValue(key: string, value: string)
    | Include(path: string)
    | Other

  /** The position of the first `c` in `s` (`find`). */
  function IndexOf(s: string, c: char): (r: Option<nat>)
    ensures r.Some? ==> r.value < |s| && s[r.value] == c
  {
    if |s| == 0 then None
    else if s[0] == c then Some(0)
    else
      match IndexOf(s[1..], c)
      case None => None
      case Some(k) => Some(k + 1)
  }

  /** `IndexOf` finds the first occurrence, and finds one whenever there
      is one. */
  lemma {:induction false} IndexOfFirst(s: string, c: char)
    ensures IndexOf(s, c).Some? ==> c !in s[..IndexOf(s, c).value]
    ensures IndexOf(s, c).None? ==> c !in s
  {
    if |s| > 0 && s[0] != c {
      IndexOfFirst(s[1..], c);
      assert s == [s[0]] + s[1..];
      if IndexOf(s, c).Some? {
        var k := IndexOf(s, c).value;
        assert s[..k] == [s[0]] + s[1..][..k - 1];
      }
    }
  }

  /** The branch ConfFile.cpp:166-192 takes for a cleaned line. The `=`
      test comes before the `@` test and only applies while a section is
      open. */
  function Classify(line: string, sectionOpen: bool): (r: LineKind)
    ensures r.KeyValue? ==> sectionOpen
  {
    if line == [] then Blank
    else if |line| >= 2 && line[0] == '[' && line[|line| - 1] == ']' then
      Header(TrimString(line[1..|line| - 1]))
    else
      var eq := IndexOf(line, '=');
      if eq.Some? && sectionOpen then
        KeyValue(TrimString(line[..eq.value]), TrimString(line[eq.value + 1..]))
      else if line[0] == '@' then Include(TrimString(line[1..]))
      else Other
  }

  // ---------------------------------------------------------------------
  // What loading does (the recursive lambda `fnLoadFileRecrusive`)
  // ---------------------------------------------------------------------

  /** Reading one file into the sections. A file that cannot be opened
      changes nothing. `fuel` bounds the `@` nesting. */
  ghost function LoadFileSpec(fs: FileSystem, name: string, fuel: nat, t: Sections): Sections
    decreases fuel, 1, 0, 0
  {
    if name !in fs then t else LoadLines(fs, fs[name], fuel, t, None)
  }

  /** Reading the remaining `lines` of a file, `open` being the section
      the key lines currently go to (`LastSection`). */
  ghost function LoadLines(fs: FileSystem, lines: seq<string>, fuel: nat, t: Sections, open: Option<string>): Sections
    requires open.Some? ==> open.value in t
    decreases fuel, 0, |lines|, 2
  {
    if lines == [] then t
    else
      var r := Step(fs, lines[0], fuel, t, open);
      LoadLines(fs, lines[1..], fuel, r.0, r.1)
  }

  /** One line read with `open` as `LastSection`: the new sections and the
      new `LastSection`. */
  ghost function Step(fs: FileSystem, line: string, fuel: nat, t: Sections, open: Option<string>): (r: (Sections, Option<string>))
    requires open.Some? ==> open.value in t
    ensures r.1.Some? ==> r.1.value in r.0
    decreases fuel, 0, 0, 1
  {
    Apply(fs, Classify(CleanLine(line), open.Some?), fuel, t, open)
  }

  /** What a line of the given kind does to the sections and to
      `LastSection`. */
  ghost function Apply(fs: FileSystem, kind: LineKind, fuel: nat, t: Sections, open: Option<string>): (r: (Sections, Option<string>))
    requires open.Some? ==> open.value in t
    requires kind.KeyValue? ==> open.Some?
    ensures r.1.Some? ==> r.1.value in r.0
    decreases fuel, 0, 0, 0
  {
    match kind
    case Blank => (t, open)
    case Other => (t, open)
    case Header(n) =>
      if n != "" && n !in t then (t[n := []], Some(n)) else (t, None)
    case KeyValue(k, v) =>
      if k != "" then (t[open.value := t[open.value] + [(k, v)]], open) else (t, open)
    case Include(p) =>
      if fuel == 0 then (t, None) else (LoadFileSpec(fs, p, fuel - 1, t), None)
  }

  /** `u` holds every section of `t`, each with the entries it had in `t`
      followed possibly by more. */
  ghost predicate Extends(t: Sections, u: Sections)
  {
    forall n :: n in t ==> n in u && t[n] <= u[n]
  }

  lemma ExtendsTransitive(t: Sections, u: Sections, w: Sections)
    requires Extends(t, u) && Extends(u, w)
    ensures Extends(t, w)
  {
  }

  /** Loading never removes a section nor any entry already in one. */
  lemma {:induction false} LoadFileExtends(fs: FileSystem, name: string, fuel: nat, t: Sections)
    ensures Extends(t, LoadFileSpec(fs, name, fuel, t))
    decreases fuel, 1, 0, 0
  {
    if name in fs {
      LoadLinesExtends(fs, fs[name], fuel, t, None);
    }
  }

  lemma {:induction false} LoadLinesExtends(fs: FileSystem, lines: seq<string>, fuel: nat, t: Sections, open: Option<string>)
    requires open.Some? ==> open.value in t
    ensures Extends(t, LoadLines(fs, lines, fuel, t, open))
    decreases fuel, 0, |lines|, 2
  {
    if lines != [] {
      var r := Step(fs, lines[0], fuel, t, open);
      StepExtends(fs, lines[0], fuel, t, open);
      LoadLinesExtends(fs, lines[1..], fuel, r.0, r.1);
      ExtendsTransitive(t, r.0, LoadLines(fs, lines[1..], fuel, r.0, r.1));
    }
  }

  lemma {:induction false} StepExtends(fs: FileSystem, line: string, fuel: nat, t: Sections, open: Option<string>)
    requires open.Some? ==> open.value in t
    ensures Extends(t, Step(fs, line, fuel, t, open).0)
    decreases fuel, 0, 0, 1
  {
    ApplyExtends(fs, Classify(CleanLine(line), open.Some?), fuel, t, open);
  }

  lemma {:induction false} ApplyExtends(fs: FileSystem, kind: LineKind, fuel: nat, t: Sections, open: Option<string>)
    requires open.Some? ==> open.value in t
    requires kind.KeyValue? ==> open.Some?
    ensures Extends(t, Apply(fs, kind, fuel, t, open).0)
    decreases fuel, 0, 0, 0
  {
    if kind.Include? && fuel > 0 {
      LoadFileExtends(fs, kind.path, fuel - 1, t);
    }
  }

  /** A line starting with `#` or `;` is a comment: it changes nothing,
      not even the open section. */
  lemma CommentLineIgnored(fs: FileSystem, line: string, fuel: nat, t: Sections, open: Option<string>)
    requires open.Some? ==> open.value in t
    requires |line| > 0 && (line[0] == '#' || line[0] == ';')
    ensures Step(fs, line, fuel, t, open) == (t, open)
  {
    assert CutAt(line, COMMENT_START) == "";
  }

  /** A line of blanks, tabs and line ends changes nothing either. */
  lemma BlankLineIgnored(fs: FileSystem, line: string, fuel: nat, t: Sections, open: Option<string>)
    requires open.Some? ==> open.value in t
    requires forall i :: 0 <= i < |line| ==> line[i] in TRAILING_SPACE
    ensures Step(fs, line, fuel, t, open) == (t, open)
  {
    var cut := CutAt(line, COMMENT_START);
    CutAtShape(line, COMMENT_START);
    TrimRightShape(cut, TRAILING_SPACE);
    var right := TrimRight(cut, TRAILING_SPACE);
  }

  /** A header naming a section that already exists (or an empty name)
      closes the current section: every following key line, up to the next
      header or include, is dropped instead of being merged anywhere. */
  lemma {:induction false} DuplicateHeaderDropsKeys(fs: FileSystem, header: string, keyLines: seq<string>, after: seq<string>, fuel: nat, t: Sections, open: Option<string>)
    requires open.Some? ==> open.value in t
    requires Classify(CleanLine(header), open.Some?).Header?
    requires Classify(CleanLine(header), open.Some?).name in t || Classify(CleanLine(header), open.Some?).name == ""
    requires forall i :: 0 <= i < |keyLines| ==> !Classify(CleanLine(keyLines[i]), false).Header?
    requires forall i :: 0 <= i < |keyLines| ==> !Classify(CleanLine(keyLines[i]), false).Include?
    ensures LoadLines(fs, [header] + keyLines + after, fuel, t, open) == LoadLines(fs, after, fuel, t, None)
  {
    var lines := [header] + keyLines + after;
    assert lines[0] == header && lines[1..] == keyLines + after;
    assert Step(fs, header, fuel, t, open) == (t, None);
    SkipClosedLines(fs, keyLines, after, fuel, t);
  }

  lemma {:induction false} SkipClosedLines(fs: FileSystem, keyLines: seq<string>, after: seq<string>, fuel: nat, t: Sections)
    requires forall i :: 0 <= i < |keyLines| ==> !Classify(CleanLine(keyLines[i]), false).Header?
    requires forall i :: 0 <= i < |keyLines| ==> !Classify(CleanLine(keyLines[i]), false).Include?
    ensures LoadLines(fs, keyLines + after, fuel, t, None) == LoadLines(fs, after, fuel, t, None)
    decreases |keyLines|
  {
    if keyLines != [] {
      var lines := keyLines + after;
      assert lines[0] == keyLines[0] && lines[1..] == keyLines[1..] + after;
      assert Step(fs, keyLines[0], fuel, t, None) == (t, None);
      assert LoadLines(fs, lines, fuel, t, None) == LoadLines(fs, lines[1..], fuel, t, None);
      SkipClosedLines(fs, keyLines[1..], after, fuel, t);
    } else {
      assert keyLines + after == after;
    }
  }

  /** A header naming a new section opens it, empty, and the key lines
      that follow are appended to it in order, duplicates included. */
  lemma {:induction false} NewHeaderCollectsKeys(fs: FileSystem, header: string, keyLines: seq<string>, entries: Entries, fuel: nat, t: Sections, open: Option<string>)
    requires open.Some? ==> open.value in t
    requires Classify(CleanLine(header), open.Some?).Header?
    requires Classify(CleanLine(header), open.Some?).name != ""
    requires Classify(CleanLine(header), open.Some?).name !in t
    requires |entries| == |keyLines|
    requires forall i :: 0 <= i < |keyLines| ==>
      Classify(CleanLine(keyLines[i]), true) == KeyValue(entries[i].0, entries[i].1) && entries[i].0 != ""
    ensures var n := Classify(CleanLine(header), open.Some?).name;
            var r := LoadLines(fs, [header] + keyLines, fuel, t, open);
            && n in r
            && r[n] == entries
            && r.Keys == t.Keys + {n}
  {
    var n := Classify(CleanLine(header), open.Some?).name;
    var lines := [header] + keyLines;
    assert lines[0] == header && lines[1..] == keyLines;
    assert Step(fs, header, fuel, t, open) == (t[n := []], Some(n));
    CollectKeys(fs, keyLines, entries, fuel, t[n := []], n);
  }

  lemma {:induction false} CollectKeys(fs: FileSystem, keyLines: seq<string>, entries: Entries, fuel: nat, t: Sections, n: string)
    requires n in t
    requires |entries| == |keyLines|
    requires forall i :: 0 <= i < |keyLines| ==>
      Classify(CleanLine(keyLines[i]), true) == KeyValue(entries[i].0, entries[i].1) && entries[i].0 != ""
    ensures var r := LoadLines(fs, keyLines, fuel, t, Some(n));
            && n in r && r.Keys == t.Keys
            && r[n] == t[n] + entries
    decreases |keyLines|
  {
    if keyLines == [] {
      assert t[n] + entries == t[n];
    } else {
      var u := t[n := t[n] + [entries[0]]];
      KeyLineStep(fs, keyLines[0], entries[0].0, entries[0].1, fuel, t, n);
      assert LoadLines(fs, keyLines, fuel, t, Some(n)) == LoadLines(fs, keyLines[1..], fuel, u, Some(n));
      CollectKeys(fs, keyLines[1..], entries[1..], fuel, u, n);
      AppendFirst(t[n], entries);
    }
  }

  lemma AppendFirst<T>(a: seq<T>, s: seq<T>)
    requires |s| > 0
    ensures a + s == (a + [s[0]]) + s[1..]
  {
    assert s == [s[0]] + s[1..];
  }

  /** A key line read while section `n` is open appends its entry there. */
  lemma KeyLineStep(fs: FileSystem, line: string, k: string, v: string, fuel: nat, t: Sections, n: string)
    requires n in t
    requires Classify(CleanLine(line), true) == KeyValue(k, v) && k != ""
    ensures Step(fs, line, fuel, t, Some(n)) == (t[n := t[n] + [(k, v)]], Some(n))
  {
  }

  /** An include line loads the named file into the same sections and
      leaves no section open, so key lines after it are dropped until the
      next header. */
  lemma {:induction false} IncludeClosesSection(fs: FileSystem, line: string, rest: seq<string>, fuel: nat, t: Sections, open: Option<string>)
    requires open.Some? ==> open.value in t
    requires Classify(CleanLine(line), open.Some?).Include?
    requires fuel > 0
    ensures var p := Classify(CleanLine(line), open.Some?).path;
            LoadLines(fs, [line] + rest, fuel, t, open)
              == LoadLines(fs, rest, fuel, LoadFileSpec(fs, p, fuel - 1, t), None)
  {
    assert ([line] + rest)[0] == line && ([line] + rest)[1..] == rest;
    var p := Classify(CleanLine(line), open.Some?).path;
    assert Step(fs, line, fuel, t, open) == (LoadFileSpec(fs, p, fuel - 1, t), None);
  }

  // ---------------------------------------------------------------------
  // Queries
  // ---------------------------------------------------------------------

  /** Keys of the entries, each once (`get(section)`). The source walks an
      `unordered_multimap`, whose order is unspecified; the model fixes the
      order of first occurrence in the entries. */
  function KeysOf(e: Entries): (r: seq<string>)
    ensures forall i, j :: 0 <= i < j < |r| ==> r[i] != r[j]
    ensures forall k :: k in r <==> exists i :: 0 <= i < |e| && e[i].0 == k
  {
    if e == [] then []
    else
      var r := KeysOf(e[..|e| - 1]);
      assert forall i :: 0 <= i < |e| - 1 ==> e[..|e| - 1][i] == e[i];
      if e[|e| - 1].0 in r then r else r + [e[|e| - 1].0]
  }

  /** The values stored for `key` (`get(section, key)`). The source walks
      an `equal_range` of an `unordered_multimap`, whose order is
      unspecified; the model fixes the order of the entries. */
  function ValuesOf(e: Entries, key: string): (r: seq<string>)
    ensures |r| <= |e|
    ensures forall v :: v in r <==> exists i :: 0 <= i < |e| && e[i] == (key, v)
  {
    if e == [] then []
    else
      var r := ValuesOf(e[..|e| - 1], key);
      assert forall i :: 0 <= i < |e| - 1 ==> e[..|e| - 1][i] == e[i];
      if e[|e| - 1].0 == key then r + [e[|e| - 1].1] else r
  }

  /** Each value is returned as often as its entry is stored: duplicates
      are kept. */
  lemma {:induction false} ValuesOfCount(e: Entries, key: string)
    ensures forall v :: multiset(ValuesOf(e, key))[v] == multiset(e)[(key, v)]
  {
    if e != [] {
      var init := e[..|e| - 1];
      ValuesOfCount(init, key);
      assert e == init + [e[|e| - 1]];
      assert multiset(e) == multiset(init) + multiset{e[|e| - 1]};
    }
  }

  /** The position of the last entry with the key, if any. */
  function LastIndex(e: Entries, key: string): (r: Option<nat>)
    ensures r.Some? ==> (r.value < |e| && e[r.value].0 == key
                         && forall j :: r.value < j < |e| ==> e[j].0 != key)
    ensures r.None? ==> forall j :: 0 <= j < |e| ==> e[j].0 != key
  {
    if e == [] then None
    else if e[|e| - 1].0 == key then Some(|e| - 1)
    else LastIndex(e[..|e| - 1], key)
  }

  /** What `getUnique` returns for a section's entries: the value of the
      last entry with the key, or the empty string when there is none. */
  function UniqueValue(e: Entries, key: string): string
  {
    match LastIndex(e, key)
    case Some(i) => e[i].1
    case None => ""
  }

  /** The last value `ValuesOf` lists is the value of the last entry with
      that key, and the list is empty exactly when no entry has the key. */
  lemma {:induction false} LastValue(e: Entries, key: string)
    ensures var vs := ValuesOf(e, key);
            (vs == [] <==> LastIndex(e, key).None?)
            && (vs != [] ==> vs[|vs| - 1] == UniqueValue(e, key))
  {
    if e != [] {
      var init := e[..|e| - 1];
      if e[|e| - 1].0 != key {
        LastValue(init, key);
        assert ValuesOf(e, key) == ValuesOf(init, key);
        assert LastIndex(e, key) == LastIndex(init, key);
        assert forall i :: 0 <= i < |init| ==> init[i] == e[i];
      }
    }
  }

  class ConfFile {
    const fileName: string
    var sections: Sections

    /** A reader for `name`, nothing loaded yet. */
    constructor (name: string)
      ensures fileName == name && sections == map[]
    {
      fileName := name;
      sections := map[];
    }

    /** `LoadFile`: forget every loaded section, then read the file. */
    method LoadFile(fs: FileSystem, fuel: nat)
      modifies this
      ensures sections == LoadFileSpec(fs, fileName, fuel, map[])
    {
      sections := map[];
      LoadRecursive(fs, fileName, fuel);
    }

    /** `fnLoadFileRecrusive`: read one file into the sections. */
    method LoadRecursive(fs: FileSystem, name: string, fuel: nat)
      modifies this
      ensures sections == LoadFileSpec(fs, name, fuel, old(sections))
      decreases fuel
    {
      if name !in fs {
        return;
      }
      var lines := fs[name];
      var open: Option<string> := None;
      var i := 0;
      while i < |lines|
        invariant 0 <= i <= |lines|
        invariant open.Some? ==> open.value in sections
        invariant LoadLines(fs, lines[i..], fuel, sections, open) == LoadFileSpec(fs, name, fuel, old(sections))
        decreases |lines| - i
      {
        assert lines[i..][0] == lines[i] && lines[i..][1..] == lines[i + 1..];
        var kind := Classify(CleanLine(lines[i]), open.Some?);
        ghost var before := (sections, open);
        match kind {
          case Blank =>
          case Other =>
          case Header(n) =>
            if n != "" && n !in sections {
              sections := sections[n := []];
              open := Some(n);
            } else {
              open := None;
            }
          case KeyValue(k, v) =>
            if k != "" {
              sections := sections[open.value := sections[open.value] + [(k, v)]];
            }
          case Include(p) =>
            if fuel > 0 {
              LoadRecursive(fs, p, fuel - 1);
            }
            open := None;
        }
        assert Step(fs, lines[i], fuel, before.0, before.1) == (sections, open);
        i := i + 1;
      }
    }

    /** `get()`: every section name. */
    function SectionNames(): (r: set<string>)
      reads this
      ensures forall n :: n in r <==> n in sections
    {
      sections.Keys
    }

    /** `get(section)`: each key of the section once; none for a missing
        section. */
    function Keys(section: string): (r: seq<string>)
      reads this
      ensures section !in sections ==> r == []
      ensures forall i, j :: 0 <= i < j < |r| ==> r[i] != r[j]
      ensures section in sections ==>
        forall k :: k in r <==> exists i :: 0 <= i < |sections[section]| && sections[section][i].0 == k
    {
      if section in sections then KeysOf(sections[section]) else []
    }

    /** `get(section, key)`: every value stored for the key. */
    function Values(section: string, key: string): (r: seq<string>)
      reads this
      ensures section !in sections ==> r == []
      ensures section in sections ==> forall v :: v in r <==> (key, v) in sections[section]
      ensures section in sections ==> forall v :: multiset(r)[v] == multiset(sections[section])[(key, v)]
    {
      if section in sections then
        ValuesOfCount(sections[section], key);
        ValuesOf(sections[section], key)
      else []
    }

    /** `getUnique`: walk the key's range to its last value; the empty
        string when the section or the key is absent. */
    method GetUnique(section: string, key: string) returns (r: string)
      ensures section !in sections ==> r == ""
      ensures section in sections ==> r == UniqueValue(sections[section], key)
    {
      if section !in sections {
        return "";
      }
      var e := sections[section];
      var range := ValuesOf(e, key);
      LastValue(e, key);
      if range == [] {
        return "";
      }
      var it := 0;
      var next := 1;
      r := range[it];
      while next < |range|
        invariant 1 <= next <= |range| && it == next - 1 && r == range[it]
        decreases |range| - next
      {
        it := it + 1;
        next := next + 1;
        r := range[it];
      }
    }
  }

  /** The process-wide cache of readers by file name (`s_lstConfFiles`). */
  class Registry {
    var instances: map<string, ConfFile>

    constructor ()
      ensures instances == map[]
    {
      instances := map[];
    }

    /** `GetInstance`: the cached reader for the file, created and stored
        on the first request. */
    method GetInstance(name: string) returns (c: ConfFile)
      modifies this
      ensures name in old(instances) ==> c == old(instances)[name] && instances == old(instances)
      ensures name !in old(instances) ==>
        fresh(c) && c.fileName == name && c.sections == map[] && instances == old(instances)[name := c]
      ensures name in instances && instances[name] == c
    {
      if name in instances {
        c := instances[name];
      } else {
        c := new ConfFile(name);
        instances := instances[name := c];
      }
    }
  }
}
