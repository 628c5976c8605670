/**
 The text format of a configuration file: what is written for a store, and what reading a
 line means.
 */
module ConfigText {
  import opened CString
  import opened ConfigValue

  /** `char line[16384]` is filled by `fgets (line, sizeof (line) - 1, file)`. */
  const LINE_MAX := 16382

  const OPTION_NULL := "null"

  /** An option as the file sees it. */
  datatype OptionState = OptionState(name: string, spec: Spec, value: Option<Value>, loaded: bool)

  datatype SectionState = SectionState(name: string, options: seq<OptionState>)

  type FileState = seq<SectionState>

  // ----------------------------------------------------------------------- writing

  /** A name that begins with # [ or \ is written after a backslash. */
  function Escape(name: string): string {
    if name != "" && (name[0] == '#' || name[0] == '[' || name[0] == '\\') then "\\" else ""
  }

  /** The text of a value, before quoting. */
  function ValueText(spec: Spec, value: Value): string {
    match spec.kind
    case Boolean => if value == Num(1) then "on" else "off"
    case Enum(names) => if value.Num? && 0 <= value.n < |names| then names[value.n] else ""
    case Integer(_, _) => if value.Num? then Dec(value.n) else ""
    case Str => if value.Text? then value.s else ""
  }

  function Quoted(spec: Spec, text: string): string {
    if spec.kind.Str? then "\"" + text + "\"" else text
  }

  /** `config_file_write_option`, without the end of line. */
  function OptionText(o: OptionState): string {
    if o.value.Some? then Escape(o.name) + o.name + " = " + Quoted(o.spec, ValueText(o.spec, o.value.value))
    else Escape(o.name) + o.name
  }

  function WriteOptions(options: seq<OptionState>): string {
    if options == [] then "" else OptionText(options[0]) + "\n" + WriteOptions(options[1..])
  }

  function SectionText(name: string): string { "[" + name + "]" }

  function WriteSections(sections: FileState): string {
    if sections == [] then ""
    else
      "\n" + (SectionText(sections[0].name)
              + ("\n" + (WriteOptions(sections[0].options) + WriteSections(sections[1..]))))
  }

  /** `config_file_write_internal`, with the comment lines of its header. */
  function WriteFile(title: string, filename: string, sections: FileState): string {
    "#\n" + ("# " + title + " -- " + filename + "\n" + ("#\n" + WriteSections(sections)))
  }

  // ---------------------------------------------------------------- taking a line apart

  datatype Line = Ignored
                | Header(section: Option<string>)
                | Setting(name: string, value: Option<string>)

  /** Trailing spaces are cut, but never the first character. */
  function CutSpaces(s: string): (r: string)
    ensures |r| <= |s| && (s != "" ==> r != "")
  {
    if |s| > 1 && s[|s| - 1] == ' ' then CutSpaces(s[..|s| - 1]) else s
  }

  /** The text before the first `c`, or all of it. */
  function Before(s: string, c: char): (r: string)
    ensures |r| <= |s|
  {
    if s == "" || s[0] == c then "" else [s[0]] + Before(s[1..], c)
  }

  /** The place of the first " =". */
  function FindEquals(s: string): (r: Option<nat>)
    ensures r.Some? ==> r.value + 2 <= |s|
  {
    if |s| < 2 then None
    else if s[0] == ' ' && s[1] == '=' then Some(0)
    else match FindEquals(s[1..])
      case None => None
      case Some(p) => Some(p + 1)
  }

  predicate InQuotes(s: string) {
    s != "" && ((s[0] == '\'' && s[|s| - 1] == '\'') || (s[0] == '"' && s[|s| - 1] == '"'))
  }

  function Unquote(s: string): string {
    if !InQuotes(s) then s else if |s| == 1 then "" else s[1..|s| - 1]
  }

  /** The value after the equals sign: nothing and "null" are null, quotes are removed. */
  function ReadValue(s: string): Option<string> {
    var t := SkipSpaces(s);
    if t == "" || StrCaseCmp(t, OPTION_NULL) == 0 then None
    else if |t| > 1 then Some(Unquote(CutSpaces(t)))
    else Some(t)
  }

  function Unescape(s: string): string { if s != "" && s[0] == '\\' then s[1..] else s }

  function ReadSetting(line: string): Line {
    var l := Before(Before(line, '\r'), '\n');
    match FindEquals(l)
    case None => Setting(Unescape(l), None)
    case Some(p) => Setting(Unescape(CutSpaces(l[..p])), ReadValue(l[p + 2..]))
  }

  /** What one line says. */
  function ParseLine(line: string): Line {
    var p := SkipSpaces(line);
    if p != "" && (p[0] == '#' || p[0] == '\r' || p[0] == '\n') then Ignored
    else if p != "" && p[0] == '[' && '=' !in p then
      if ']' in p then Header(Some(Before(p[1..], ']'))) else Header(None)
    else ReadSetting(line)
  }

  // ----------------------------------------------------------------------- reading

  function OptionNames(options: seq<OptionState>): seq<string> {
    seq(|options|, k requires 0 <= k < |options| => options[k].name)
  }

  function SectionNames(sections: FileState): seq<string> {
    seq(|sections|, i requires 0 <= i < |sections| => sections[i].name)
  }

  /** The first option with that name, without case. */
  function FindOption(options: seq<OptionState>, name: string): (r: Option<nat>)
    ensures r.Some? ==> r.value < |options|
  {
    var k := IndexOf(OptionNames(options), name);
    if k < 0 then None else Some(k)
  }

  function FindSection(sections: FileState, name: string): (r: Option<nat>)
    ensures r.Some? ==> r.value < |sections|
  {
    var i := IndexOf(SectionNames(sections), name);
    if i < 0 then None else Some(i)
  }

  /** `config_file_search_option`: in the section, or without one in all sections. */
  function Locate(sections: FileState, section: Option<nat>, name: string): (r: Option<(nat, nat)>)
    requires section.Some? ==> section.value < |sections|
    ensures r.Some? ==> r.value.0 < |sections| && r.value.1 < |sections[r.value.0].options|
  {
    match section
    case Some(i) =>
      (match FindOption(sections[i].options, name)
       case None => None
       case Some(k) => Some((i, k)))
    case None => LocateAnywhere(sections, 0, name)
  }

  function LocateAnywhere(sections: FileState, i: nat, name: string): (r: Option<(nat, nat)>)
    requires i <= |sections|
    ensures r.Some? ==> r.value.0 < |sections| && r.value.1 < |sections[r.value.0].options|
    decreases |sections| - i
  {
    if i == |sections| then None
    else match FindOption(sections[i].options, name)
      case Some(k) => Some((i, k))
      case None => LocateAnywhere(sections, i + 1, name)
  }

  function SetOption(o: OptionState, text: Option<string>): OptionState {
    o.(value := SetValue(o.spec, o.value, text).value, loaded := true)
  }

  function UpdateOption(sections: FileState, i: nat, k: nat, o: OptionState): (r: FileState)
    requires i < |sections| && k < |sections[i].options|
    ensures |r| == |sections|
  {
    sections[i := sections[i].(options := sections[i].options[k := o])]
  }

  /** Where the reader is: the options so far, and the current section if there is one. */
  datatype Reading = Reading(sections: FileState, section: Option<nat>)

  predicate ValidReading(r: Reading) { r.section.Some? ==> r.section.value < |r.sections| }

  /** The effect of a line that has been taken apart. */
  function ReadParsed(r: Reading, what: Line): (r': Reading)
    requires ValidReading(r)
    ensures ValidReading(r')
  {
    match what
    case Ignored => r
    case Header(None) => r
    case Header(Some(name)) => r.(section := FindSection(r.sections, name))
    case Setting(name, text) =>
      match Locate(r.sections, r.section, name)
      case None => r
      case Some((i, k)) =>
        r.(sections := UpdateOption(r.sections, i, k, SetOption(r.sections[i].options[k], text)))
  }

  /** A line of the file; as a C string it ends where a NUL is. */
  function ReadLine(r: Reading, line: string): (r': Reading)
    requires ValidReading(r)
    ensures ValidReading(r')
  {
    ReadParsed(r, ParseLine(Before(line, '\0')))
  }

  /** `fgets`: up to and with the first end of line, but no more than the buffer holds. */
  function FirstLine(text: string, room: nat): (n: nat)
    ensures n <= |text| && n <= room && (text != "" && room > 0 ==> n > 0)
  {
    if text == "" || room == 0 then 0
    else if text[0] == '\n' then 1
    else 1 + FirstLine(text[1..], room - 1)
  }

  function ReadText(r: Reading, text: string): (r': Reading)
    requires ValidReading(r)
    ensures ValidReading(r')
    decreases |text|
  {
    if text == "" then r
    else
      var n := FirstLine(text, LINE_MAX);
      ReadText(ReadLine(r, text[..n]), text[n..])
  }

  /** The same change for all options of a list, and for all lists of a file. */
  function MapList(options: seq<OptionState>, f: OptionState -> OptionState): seq<OptionState> {
    seq(|options|, k requires 0 <= k < |options| => f(options[k]))
  }

  function MapOptions(sections: FileState, f: OptionState -> OptionState): FileState {
    seq(|sections|, i requires 0 <= i < |sections| => sections[i].(options := MapList(sections[i].options, f)))
  }

  function Unload(o: OptionState): OptionState { o.(loaded := false) }

  function ResetIfMissing(o: OptionState): OptionState {
    if o.loaded then o else o.(value := ResetValue(o.spec, o.value).value)
  }

  /** `config_file_reload`: nothing counts as loaded, the file is read, and what was not found
      in it is reset. */
  function Reload(sections: FileState, text: string): FileState {
    MapOptions(ReadText(Reading(MapOptions(sections, Unload), None), text).sections, ResetIfMissing)
  }
}
