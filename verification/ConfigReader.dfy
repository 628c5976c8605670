/**
 Writing the options of a file, and reading them back into the options that are there: the
 loops over the linked lists and over the lines of the file.
 */
module ConfigReader {
  import opened CString
  import opened ConfigValue
  import opened ConfigText
  import opened ConfigStore
  import ConfigLookup
  import ConfigLine
  import opened ConfigBuffer

  // ------------------------------------------------------------ what the file sees

  ghost function StateOf(o: ConfigOption): OptionState
    reads o`name, o`value, o`loaded
  {
    OptionState(o.name, o.spec, o.value, o.loaded)
  }

  /** The options of a list, in order, as the file sees them. */
  ghost predicate ShowsList(list: seq<ConfigOption>, options: seq<OptionState>)
    reads Elements(list)`name, Elements(list)`value, Elements(list)`loaded
  {
    |options| == |list| && forall k :: 0 <= k < |list| ==> options[k] == StateOf(list[k])
  }

  ghost predicate ShowsSection(s: ConfigSection, state: SectionState)
    reads s`list, Elements(s.list)`name, Elements(s.list)`value, Elements(s.list)`loaded
  {
    state.name == s.name && ShowsList(s.list, state.options)
  }

  ghost predicate Shows(sections: seq<ConfigSection>, states: FileState)
    reads sections, (set s <- sections, o <- s.list :: o)`name
    reads (set s <- sections, o <- s.list :: o)`value, (set s <- sections, o <- s.list :: o)`loaded
  {
    |states| == |sections| && forall i :: 0 <= i < |sections| ==> ShowsSection(sections[i], states[i])
  }

  /** Values and defaults have the type of their option. */
  ghost predicate OptionSound(o: ConfigOption)
    reads o`value
  {
    && WellFormed(o.spec.kind) && o.Typed()
    && (o.spec.default.Some? ==> (o.spec.default.value.Text? <==> o.spec.kind.Str?))
  }

  ghost predicate SectionSound(s: ConfigSection)
    reads s, s.members`name, s.members`prev, s.members`next, s.members`value
  {
    s.Valid() && forall o <- s.members :: OptionSound(o)
  }

  // ------------------------------------------------------------------------- setting

  /** A search by name finds the same option in the list and in what the file sees of it. */
  lemma FindSame<O>(entries: seq<ConfigLookup.Entry<O>>, options: seq<OptionState>, name: string)
    requires |entries| == |options| && forall k :: 0 <= k < |options| ==> entries[k].name == options[k].name
    ensures match FindOption(options, name)
            case None => ConfigLookup.FindEntry(entries, name) == None
            case Some(k) => ConfigLookup.FindEntry(entries, name) == Some(entries[k].option)
  {
    assert ConfigLookup.EntryNames(entries) == OptionNames(options);
  }

  /** The option found gets the value that was read. */
  method SetFromFile(o: ConfigOption, text: Option<string>)
    requires OptionSound(o)
    modifies o`value, o`loaded, o`changes
    ensures OptionSound(o) && StateOf(o) == SetOption(old(StateOf(o)), text)
  {
    var rc := o.Set(text, true, true);
    o.loaded := true;
  }

  /** One option of a list changes. */
  lemma ShowsOneChanged(list: seq<ConfigOption>, was: seq<OptionState>, k: nat, state: OptionState)
    requires |was| == |list| && k < |list| && StateOf(list[k]) == state
    requires forall m :: 0 <= m < |list| && m != k ==> was[m] == StateOf(list[m])
    ensures ShowsList(list, was[k := state])
  {}

  method SetInSection(s: ConfigSection, name: string, text: Option<string>, ghost state: SectionState)
    returns (found: bool)
    requires SectionSound(s) && ShowsSection(s, state)
    modifies s.members`value, s.members`loaded, s.members`changes
    ensures SectionSound(s)
    ensures match FindOption(state.options, name)
            case None => !found && ShowsSection(s, state)
            case Some(k) =>
              found && ShowsSection(s, state.(options := state.options[k := SetOption(state.options[k], text)]))
  {
    hide FindOption, SetOption, OptionSound, ConfigLookup.SortedEntries, ConfigLookup.FindEntry;
    FindSame(s.entries, state.options, name);
    var o := s.SearchOption(name);
    found := o != null;
    if found {
      ghost var k := FindOption(state.options, name).value;
      SetFromFile(o, text);
      ShowsOneChanged(s.list, state.options, k, SetOption(state.options[k], text));
    }
  }

  // ------------------------------------------------------------- all sections of a file

  ghost predicate AllSound(sections: seq<ConfigSection>)
    reads sections, (set s <- sections, o <- s.members :: o)`name, (set s <- sections, o <- s.members :: o)`prev
    reads (set s <- sections, o <- s.members :: o)`next, (set s <- sections, o <- s.members :: o)`value
  {
    && (forall i, j :: 0 <= i < j < |sections| ==> sections[i] != sections[j])
    && forall i :: 0 <= i < |sections| ==> SectionSound(sections[i])
  }

  /** An option belongs to one section only. */
  lemma SectionsApart(sections: seq<ConfigSection>, i: nat)
    requires AllSound(sections) && i < |sections|
    ensures forall m :: 0 <= m < |sections| && m != i ==> sections[m].members !! sections[i].members
    ensures forall m :: 0 <= m < |sections| ==> Elements(sections[m].list) <= sections[m].members
  {
    forall m | 0 <= m < |sections| ensures Elements(sections[m].list) <= sections[m].members {
      assert SectionSound(sections[m]);
    }
    forall m | 0 <= m < |sections| && m != i ensures sections[m].members !! sections[i].members {
      assert sections[m] != sections[i] && SectionSound(sections[m]) && SectionSound(sections[i]);
    }
  }

  /** An option of the `i`-th section is set, and nothing else changes. */
  method SetIn(section: ConfigSection, name: string, text: Option<string>, ghost sections: seq<ConfigSection>,
               ghost i: nat, ghost states: FileState) returns (found: bool)
    requires AllSound(sections) && Shows(sections, states) && i < |sections| && section == sections[i]
    modifies section.members`value, section.members`loaded, section.members`changes
    ensures AllSound(sections)
    ensures match FindOption(states[i].options, name)
            case None => !found && Shows(sections, states)
            case Some(k) =>
              found && Shows(sections, UpdateOption(states, i, k, SetOption(states[i].options[k], text)))
  {
    hide FindOption, SetOption, SectionSound, ShowsSection;
    SectionsApart(sections, i);
    found := SetInSection(section, name, text, states[i]);
    assert forall m :: 0 <= m < |sections| && m != i ==> SectionSound(sections[m]);
    assert forall m :: 0 <= m < |sections| && m != i ==> ShowsSection(sections[m], states[m]);
  }

  /** Without a current section an option is looked for in all of them, and the first is set. */
  method SetAnywhere(sections: seq<ConfigSection>, name: string, text: Option<string>, ghost states: FileState)
    requires AllSound(sections) && Shows(sections, states)
    modifies (set s <- sections, o <- s.members :: o)`value, (set s <- sections, o <- s.members :: o)`loaded
    modifies (set s <- sections, o <- s.members :: o)`changes
    ensures AllSound(sections)
    ensures Shows(sections, ReadParsed(Reading(states, None), Setting(name, text)).sections)
  {
    hide FindOption, SetOption, AllSound, ShowsSection;
    var i := 0;
    while i < |sections|
      invariant 0 <= i <= |sections| && AllSound(sections) && Shows(sections, states)
      invariant LocateAnywhere(states, i, name) == LocateAnywhere(states, 0, name)
    {
      var found := SetIn(sections[i], name, text, sections, i, states);
      if found { return; }
      i := i + 1;
    }
  }

  /** The current section, as a pointer and as a number. */
  ghost predicate IsCurrent(sections: seq<ConfigSection>, section: ConfigSection?, at: Option<nat>) {
    match at
    case None => section == null
    case Some(i) => i < |sections| && section == sections[i]
  }

  method ApplySetting(sections: seq<ConfigSection>, section: ConfigSection?, name: string, text: Option<string>,
                      ghost r: Reading)
    requires AllSound(sections) && Shows(sections, r.sections) && IsCurrent(sections, section, r.section)
    modifies (set s <- sections, o <- s.members :: o)`value, (set s <- sections, o <- s.members :: o)`loaded
    modifies (set s <- sections, o <- s.members :: o)`changes
    ensures AllSound(sections) && Shows(sections, ReadParsed(r, Setting(name, text)).sections)
  {
    hide FindOption, SetOption, AllSound, ShowsSection;
    if section == null {
      SetAnywhere(sections, name, text, r.sections);
    } else {
      var found := SetIn(section, name, text, sections, r.section.value, r.sections);
    }
  }

  // ------------------------------------------------------------------ reading the file

  lemma FindSectionFirst(states: FileState, name: string, j: nat)
    requires j <= |states| && forall i :: 0 <= i < j ==> StrCaseCmp(states[i].name, name) != 0
    requires j < |states| ==> StrCaseCmp(states[j].name, name) == 0
    ensures FindSection(states, name) == if j < |states| then Some(j) else None
  {
    IndexOfUnique(SectionNames(states), name, j);
  }

  /** `fgets`: the next line goes into the buffer, with a NUL after it. */
  method FGets(text: string, pos: nat, line: array<char>) returns (next: nat)
    requires pos < |text| && line.Length == LINE_MAX + 2
    modifies line
    ensures next == pos + FirstLine(text[pos..], LINE_MAX) && pos < next <= |text|
    ensures next - pos <= 16382 && (next < |text| && text[next - 1] != '\n' ==> next - pos == 16382)
    ensures IsStr(line[..], 0, Before(text[pos..next], '\0'))
  {
    hide FirstLine, Before, IsStr;
    next := pos;
    while next < |text| && next - pos < LINE_MAX && (next == pos || text[next - 1] != '\n')
      invariant pos <= next <= |text| && next - pos <= LINE_MAX
      invariant line[..next - pos] == text[pos..next]
      invariant '\n' !in text[pos..if next == pos then pos else next - 1]
    {
      line[next - pos] := text[next];
      next := next + 1;
      OneMoreChar(text, pos, next - 1, line[..]);
    }
    LineIsFirst(text, pos, next);
    line[next - pos] := '\0';
    assert line[..next - pos] == text[pos..next];
    BufferHolds(line[..], text[pos..next]);
  }

  lemma LineIsFirst(text: string, pos: nat, next: nat)
    requires pos < next <= |text| && next - pos <= LINE_MAX && '\n' !in text[pos..next - 1]
    requires next == |text| || next - pos == LINE_MAX || text[next - 1] == '\n'
    ensures FirstLine(text[pos..], LINE_MAX) == next - pos
  {
    assert text[pos..][..next - 1 - pos] == text[pos..next - 1];
    FirstLineAt(text[pos..], LINE_MAX, next - pos);
  }

  lemma OneMoreChar(text: string, pos: nat, next: nat, line: seq<char>)
    requires pos <= next < |text| && next - pos < |line|
    requires line[..next - pos] == text[pos..next] && line[next - pos] == text[next]
    requires '\n' !in text[pos..if next == pos then pos else next - 1]
    requires next == pos || text[next - 1] != '\n'
    ensures line[..next + 1 - pos] == text[pos..next + 1] && '\n' !in text[pos..next]
  {
    assert text[pos..next + 1] == text[pos..next] + [text[next]];
    assert line[..next + 1 - pos] == line[..next - pos] + [line[next - pos]];
    if next > pos { assert text[pos..next] == text[pos..next - 1] + [text[next - 1]]; }
  }

  lemma {:induction false} FirstLineAt(t: string, room: nat, n: nat)
    requires n <= |t| && n <= room && '\n' !in t[..if n == 0 then 0 else n - 1]
    requires n == |t| || n == room || (n > 0 && t[n - 1] == '\n')
    ensures FirstLine(t, room) == n
  {
    if n > 1 {
      assert t[..n - 1][0] == t[0] && t[1..][..n - 2] == t[..n - 1][1..];
      FirstLineAt(t[1..], room - 1, n - 1);
    }
  }

  lemma {:induction false} BufferHolds(b: seq<char>, t: string)
    requires |t| < |b| && b[..|t|] == t && b[|t|] == '\0'
    ensures IsStr(b, 0, Before(t, '\0'))
  {
    var s := Before(t, '\0');
    BeforeIsPrefix(t, '\0');
    assert b[0..|s|] == t[..|s|];
  }

  lemma {:induction false} BeforeIsPrefix(s: string, c: char)
    ensures var t := Before(s, c); t == s[..|t|] && c !in t && (|t| < |s| ==> s[|t|] == c)
  {
    if s != "" && s[0] != c {
      BeforeIsPrefix(s[1..], c);
      var t := Before(s[1..], c);
      assert s[..|t| + 1] == [s[0]] + s[1..][..|t|];
    }
  }

  /** The loop of `config_file_read_internal`, for a file without callbacks. */
  method Read(file: ConfigFile, text: string, ghost states: FileState)
    requires AllSound(file.sections) && Shows(file.sections, states)
    modifies (set s <- file.sections, o <- s.members :: o)`value, (set s <- file.sections, o <- s.members :: o)`loaded
    modifies (set s <- file.sections, o <- s.members :: o)`changes
    ensures AllSound(file.sections)
    ensures Shows(file.sections, ReadText(Reading(states, None), text).sections)
  {
    hide AllSound, Shows, ParseLine, FirstLine, Before, IsStr, ReadText, ReadParsed;
    var line := new char[LINE_MAX + 2];
    var section: ConfigSection? := null;
    var pos := 0;
    ghost var r := Reading(states, None);
    assert text[0..] == text;
    while pos < |text|
      invariant 0 <= pos <= |text| && AllSound(file.sections) && Shows(file.sections, r.sections)
      invariant ValidReading(r) && IsCurrent(file.sections, section, r.section)
      invariant ReadText(r, text[pos..]) == ReadText(Reading(states, None), text)
    {
      var next := FGets(text, pos, line);
      var what := CutLine(line, Before(text[pos..next], '\0'));
      NextLine(r, text, pos, next);
      section, r := ApplyLine(file, section, what, r);
      pos := next;
    }
    NoMoreLines(r, text[pos..]);
  }

  lemma NextLine(r: Reading, text: string, pos: nat, next: nat)
    requires ValidReading(r) && pos < |text| && next == pos + FirstLine(text[pos..], LINE_MAX)
    ensures ReadText(r, text[pos..])
            == ReadText(ReadParsed(r, ParseLine(Before(text[pos..next], '\0'))), text[next..])
  {
    hide ParseLine, FirstLine, ReadParsed, Before;
    var rest := text[pos..];
    assert rest[..next - pos] == text[pos..next] && rest[next - pos..] == text[next..];
  }

  lemma NoMoreLines(r: Reading, rest: string)
    requires ValidReading(r) && rest == ""
    ensures ReadText(r, rest) == r
  {}

  /** The rest of the loop's body: a section becomes the current one, an option is set. */
  method ApplyLine(file: ConfigFile, section: ConfigSection?, what: Line, ghost r: Reading)
    returns (current: ConfigSection?, ghost next: Reading)
    requires AllSound(file.sections) && Shows(file.sections, r.sections)
    requires ValidReading(r) && IsCurrent(file.sections, section, r.section)
    modifies (set s <- file.sections, o <- s.members :: o)`value, (set s <- file.sections, o <- s.members :: o)`loaded
    modifies (set s <- file.sections, o <- s.members :: o)`changes
    ensures AllSound(file.sections) && Shows(file.sections, next.sections) && next == ReadParsed(r, what)
    ensures IsCurrent(file.sections, current, next.section)
  {
    hide AllSound, ShowsSection, FindOption, Locate, SetOption, FindSection, StrCaseCmp, UpdateOption;
    current, next := section, ReadParsed(r, what);
    match what
    case Ignored =>
    case Header(None) =>
    case Header(Some(name)) =>
      ghost var j;
      current, j := file.SearchSection(name);
      NamesShown(file.sections, r.sections);
      FindSectionFirst(r.sections, name, j);
    case Setting(name, value) =>
      ApplySetting(file.sections, section, name, value, r);
  }

  lemma NamesShown(sections: seq<ConfigSection>, states: FileState)
    requires Shows(sections, states)
    ensures |states| == |sections| && forall i :: 0 <= i < |states| ==> states[i].name == sections[i].name
  {
    assert forall i :: 0 <= i < |states| ==> ShowsSection(sections[i], states[i]);
  }

  // ----------------------------------------------------------------------- reloading

  /** Nothing in the section counts as loaded. */
  method ClearLoaded(s: ConfigSection, ghost state: SectionState)
    requires SectionSound(s) && ShowsSection(s, state)
    modifies s.members`loaded
    ensures SectionSound(s) && ShowsSection(s, state.(options := MapList(state.options, Unload)))
  {
    hide ConfigLookup.SortedEntries, OptionSound, Held;
    var o := s.options;
    ghost var k := 0;
    while o != null
      invariant 0 <= k <= |s.list| && o == if k < |s.list| then s.list[k] else null
      invariant forall m :: 0 <= m < k ==> StateOf(s.list[m]) == Unload(state.options[m])
      invariant forall m :: k <= m < |s.list| ==> StateOf(s.list[m]) == state.options[m]
      decreases |s.list| - k
    {
      o.loaded := false;
      o, k := o.next, k + 1;
    }
  }

  method ResetOne(o: ConfigOption)
    requires OptionSound(o)
    modifies o`value, o`changes
    ensures OptionSound(o) && StateOf(o) == ResetIfMissing(old(StateOf(o)))
  {
    if !o.loaded { var rc := o.Reset(true); }
  }

  /** What was not found in the file is reset. */
  method ResetMissing(s: ConfigSection, ghost state: SectionState)
    requires SectionSound(s) && ShowsSection(s, state)
    modifies s.members`value, s.members`changes
    ensures SectionSound(s) && ShowsSection(s, state.(options := MapList(state.options, ResetIfMissing)))
  {
    hide ConfigLookup.SortedEntries, ResetIfMissing, OptionSound, Held;
    var o := s.options;
    ghost var k := 0;
    while o != null
      invariant 0 <= k <= |s.list| && o == if k < |s.list| then s.list[k] else null
      invariant forall m :: 0 <= m < k ==> StateOf(s.list[m]) == ResetIfMissing(state.options[m])
      invariant forall m :: k <= m < |s.list| ==> StateOf(s.list[m]) == state.options[m]
      invariant SectionSound(s)
      decreases |s.list| - k
    {
      ResetOne(o);
      o, k := o.next, k + 1;
    }
  }

  method ClearAllLoaded(sections: seq<ConfigSection>, ghost states: FileState)
    requires AllSound(sections) && Shows(sections, states)
    modifies (set s <- sections, o <- s.members :: o)`loaded
    ensures AllSound(sections) && Shows(sections, MapOptions(states, Unload))
  {
    hide SectionSound, ShowsSection, MapList;
    ghost var mapped := MapOptions(states, Unload);
    for i := 0 to |sections|
      invariant AllSound(sections)
      invariant forall m :: 0 <= m < i ==> ShowsSection(sections[m], mapped[m])
      invariant forall m :: i <= m < |sections| ==> ShowsSection(sections[m], states[m])
    {
      SectionsApart(sections, i);
      ClearLoaded(sections[i], states[i]);
      assert forall m :: 0 <= m < i ==> ShowsSection(sections[m], mapped[m]);
      assert forall m :: i < m < |sections| ==> ShowsSection(sections[m], states[m]);
    }
  }

  method ResetAllMissing(sections: seq<ConfigSection>, ghost states: FileState)
    requires AllSound(sections) && Shows(sections, states)
    modifies (set s <- sections, o <- s.members :: o)`value, (set s <- sections, o <- s.members :: o)`changes
    ensures AllSound(sections) && Shows(sections, MapOptions(states, ResetIfMissing))
  {
    hide SectionSound, ShowsSection, MapList;
    ghost var mapped := MapOptions(states, ResetIfMissing);
    for i := 0 to |sections|
      invariant AllSound(sections)
      invariant forall m :: 0 <= m < i ==> ShowsSection(sections[m], mapped[m])
      invariant forall m :: i <= m < |sections| ==> ShowsSection(sections[m], states[m])
    {
      SectionsApart(sections, i);
      ResetMissing(sections[i], states[i]);
      assert forall m :: 0 <= m < i ==> ShowsSection(sections[m], mapped[m]);
      assert forall m :: i < m < |sections| ==> ShowsSection(sections[m], states[m]);
    }
  }

  /** `config_file_reload` */
  method ReloadFile(file: ConfigFile, text: string, ghost states: FileState)
    requires AllSound(file.sections) && Shows(file.sections, states)
    modifies (set s <- file.sections, o <- s.members :: o)`value, (set s <- file.sections, o <- s.members :: o)`loaded
    modifies (set s <- file.sections, o <- s.members :: o)`changes
    ensures AllSound(file.sections) && Shows(file.sections, Reload(states, text))
  {
    hide AllSound, Shows, ReadText, MapOptions;
    ClearAllLoaded(file.sections, states);
    ghost var cleared := MapOptions(states, Unload);
    Read(file, text, cleared);
    ResetAllMissing(file.sections, ReadText(Reading(cleared, None), text).sections);
  }

  // ------------------------------------------------------------------------- writing

  /** `config_file_option_escape`: the reader takes the escape away again, and with it every line
      that begins with the name is a setting exactly when the name does not hide a # or a [ behind
      spaces. */
  method EscapeName(name: string) returns (escape: string)
    ensures escape == Escape(name) && Unescape(escape + name) == name
    ensures ConfigLine.NoBreak(name) ==>
              ((forall rest :: ConfigLine.NoBreak(rest) ==> ParseLine(escape + name + rest + "\n").Setting?)
               <==> ConfigLine.ShowsSetting(name))
  {
    escape := if name != "" && (name[0] == '#' || name[0] == '[' || name[0] == '\\') then "\\" else "";
    ConfigLine.EscapeIsTakenAway(name);
    if ConfigLine.NoBreak(name) { ConfigLine.EscapeProtectsIff(name); }
  }

  /** `config_file_write_option`: what is printed for an option. */
  method WriteOption(o: ConfigOption) returns (text: string)
    requires OptionSound(o)
    ensures text == OptionText(StateOf(o)) + "\n"
  {
    var escape := EscapeName(o.name);
    text := escape + o.name;
    if o.value.Some? {
      match o.spec.kind
      case Boolean => text := text + " = " + if o.value.value.n == 1 then "on" else "off";
      case Enum(names) =>
        text := text + " = " + if 0 <= o.value.value.n < |names| then names[o.value.value.n] else "";
      case Integer(_, _) => text := text + " = " + Dec(o.value.value.n);
      case Str => text := text + " = " + ("\"" + o.value.value.s + "\"");
    }
    text := text + "\n";
  }

  lemma Regroup(a: string, b: string, c: string, d: string)
    ensures (a + (b + c)) + d == a + (b + (c + d)) && a + (b + c) + d == a + b + c + d
  {}

  lemma OneMoreOption(out: string, rest: seq<OptionState>, text: string)
    requires rest != [] && text == OptionText(rest[0]) + "\n"
    ensures out + WriteOptions(rest) == out + text + WriteOptions(rest[1..])
  {
    Regroup("", out, text, WriteOptions(rest[1..]));
  }

  lemma NoMoreOptions(rest: seq<OptionState>)
    requires rest == []
    ensures WriteOptions(rest) == ""
  {}

  method WriteList(s: ConfigSection, ghost options: seq<OptionState>) returns (out: string)
    requires SectionSound(s) && ShowsList(s.list, options)
    ensures out == WriteOptions(options)
  {
    hide OptionText, WriteOptions, ConfigLookup.SortedEntries, OptionSound, Held;
    out := "";
    var o := s.options;
    ghost var k := 0;
    assert options[0..] == options;
    while o != null
      invariant 0 <= k <= |s.list| && o == if k < |s.list| then s.list[k] else null
      invariant out + WriteOptions(options[k..]) == WriteOptions(options)
      decreases |s.list| - k
    {
      ghost var rest := options[k..];
      assert rest[0] == StateOf(s.list[k]) && rest[1..] == options[k + 1..];
      var text := WriteOption(o);
      OneMoreOption(out, rest, text);
      out := out + text;
      o, k := o.next, k + 1;
    }
    NoMoreOptions(options[k..]);
  }

  /** The header of a section, and its options. */
  method WriteSection(s: ConfigSection, ghost state: SectionState) returns (out: string)
    requires SectionSound(s) && ShowsSection(s, state)
    ensures out == "\n" + (SectionText(state.name) + ("\n" + WriteOptions(state.options)))
  {
    out := "\n" + ("[" + s.name + "]" + "\n");
    var list := WriteList(s, state.options);
    Regroup("\n", SectionText(state.name), "\n", list);
    out := out + list;
  }

  lemma OneMoreSection(rest: FileState, text: string)
    requires rest != []
    requires text == "\n" + (SectionText(rest[0].name) + ("\n" + WriteOptions(rest[0].options)))
    ensures WriteSections(rest) == text + WriteSections(rest[1..])
  {
    hide SectionText, WriteOptions;
    AfterSection(SectionText(rest[0].name), WriteOptions(rest[0].options), WriteSections(rest[1..]));
  }

  lemma AfterSection(header: string, body: string, more: string)
    ensures "\n" + (header + ("\n" + (body + more))) == "\n" + (header + ("\n" + body)) + more
  {
    Associate("\n", body, more);
    Associate(header, "\n" + body, more);
    Associate("\n", header + ("\n" + body), more);
  }

  lemma Associate(a: string, b: string, c: string)
    ensures a + (b + c) == (a + b) + c
  {}

  /** `config_file_write_internal`, after the file has been opened. */
  method Write(file: ConfigFile, title: string, ghost states: FileState) returns (out: string)
    requires AllSound(file.sections) && Shows(file.sections, states)
    ensures out == WriteFile(title, file.filename, states)
  {
    hide WriteOptions, SectionText, SectionSound, ShowsSection;
    out := "#\n" + ("# " + title + " -- " + file.filename + "\n" + "#\n");
    ghost var start := out;
    Regroup("#\n", "# " + title + " -- " + file.filename + "\n", "#\n", WriteSections(states));
    for i := 0 to |file.sections|
      invariant AllSound(file.sections) && Shows(file.sections, states)
      invariant out + WriteSections(states[i..]) == start + WriteSections(states)
    {
      ghost var rest := states[i..];
      assert rest[0] == states[i] && rest[1..] == states[i + 1..];
      var text := WriteSection(file.sections[i], states[i]);
      OneMoreSection(rest, text);
      Regroup("", out, text, WriteSections(rest[1..]));
      out := out + text;
    }
  }
}
