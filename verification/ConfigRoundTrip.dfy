/**
 Writing a store and reloading the file restores every value.
 */
module ConfigRoundTrip {
  import opened CString
  import opened ConfigValue
  import opened ConfigText
  import opened ConfigLaws
  import opened ConfigLine

  // ------------------------------------------------------------------- hypotheses

  /** A string must have no line break; the name of an enumerated value must be plain, must not
      look like a step, and must be the first of the names equal to it without case. */
  predicate ValueOk(spec: Spec, value: Value) {
    && InRange(spec.kind, Some(value))
    && match spec.kind
       case Str => NoBreak(value.s)
       case Enum(names) =>
         var t := names[value.n];
         PlainText(t) && !("++" <= t) && !("--" <= t) && IndexOf(names, t) == value.n
       case _ => true
  }

  predicate OptionOk(o: OptionState) {
    && NameKept(o) && WellFormed(o.spec.kind)
    && (if o.value.Some? then ValueOk(o.spec, o.value.value) else o.spec.nullAllowed)
    && |OptionText(o)| < LINE_MAX
  }

  // ------------------------------------------------------------ reading one option line

  lemma DecIsPlain(n: int)
    ensures PlainText(Dec(n))
  {
    var m := if n < 0 then -n else n;
    var d, s := DecNat(m), Dec(n);
    DecNatReads(m);
    assert s[0] == '-' || IsDigit(s[0]);
    assert IsDigit(d[|d| - 1]) && s[|s| - 1] == d[|d| - 1];
    forall i | 0 <= i < |s| ensures s[i] != '\r' && s[i] != '\n' && s[i] != '\0' {
      assert n < 0 && i > 0 ==> s[i] == d[i - 1];
    }
    assert StrCaseCmp(s, OPTION_NULL) != 0 by { assert FoldChar(s[0]) < 'n' && FoldChar('n') == 'n'; }
  }

  lemma OnOffArePlain()
    ensures PlainText("on") && PlainText("off")
  {
    assert StrCaseCmp("on", OPTION_NULL) != 0 by { assert FoldChar('o') == 'o' && FoldChar('n') == 'n'; }
    assert StrCaseCmp("off", OPTION_NULL) != 0 by { assert FoldChar('o') == 'o' && FoldChar('n') == 'n'; }
  }

  lemma OkIsKept(o: OptionState)
    requires NameKept(o) && WellFormed(o.spec.kind) && (o.value.Some? ==> ValueOk(o.spec, o.value.value))
    ensures LineKept(o)
  {
    if o.value.Some? {
      match o.spec.kind
      case Integer(_, _) => DecIsPlain(o.value.value.n);
      case Boolean => OnOffArePlain();
      case _ =>
    }
  }

  /** What is read from the line of an option is the text of its value. */
  lemma OptionLineReads(o: OptionState)
    requires NameKept(o) && WellFormed(o.spec.kind) && (o.value.Some? ==> ValueOk(o.spec, o.value.value))
    ensures NoBreak(OptionText(o)) && ParseLine(OptionText(o) + "\n") == Setting(o.name, TextOf(o))
  {
    hide ParseLine, OptionText, ValueText, ValueOk;
    OkIsKept(o);
    OptionLineReadsIff(o);
  }

  // ------------------------------------------------------------ setting what was read

  lemma BooleanTexts()
    ensures BooleanIsValid("on") && StringToBoolean("on") == 1 && StrCaseCmp("on", "toggle") != 0
    ensures BooleanIsValid("off") && StringToBoolean("off") == 0 && StrCaseCmp("off", "toggle") != 0
  {
    FirstDiffers("on", "toggle"); FirstDiffers("off", "toggle");
    FirstDiffers("yes", "off"); FirstDiffers("y", "off"); FirstDiffers("true", "off");
    FirstDiffers("t", "off"); FirstDiffers("1", "off");
    assert "on"[1..] == "n" && "off"[1..] == "ff";
    FirstDiffers("n", "ff");
    StrCaseCmpPreorder("on", "on", "on");
    StrCaseCmpPreorder("off", "off", "off");
    assert BOOLEAN_TRUE[1..] == ["yes", "y", "true", "t", "1"];
    assert BOOLEAN_TRUE[1..][1..] == ["y", "true", "t", "1"];
    assert BOOLEAN_TRUE[1..][1..][1..] == ["true", "t", "1"];
    assert BOOLEAN_TRUE[1..][1..][1..][1..] == ["t", "1"];
    assert BOOLEAN_TRUE[1..][1..][1..][1..][1..] == ["1"];
  }

  lemma FirstDiffers(a: string, b: string)
    requires a != "" && b != "" && FoldChar(a[0]) != FoldChar(b[0])
    ensures StrCaseCmp(a, b) != 0
  {}

  /** Setting an option to the text of a value gives that value, whatever it was before. */
  lemma TextSetsValue(spec: Spec, value: Value, before: Option<Value>)
    requires WellFormed(spec.kind) && ValueOk(spec, value)
    ensures SetValue(spec, before, Some(ValueText(spec, value))).value == Some(value)
  {
    match spec.kind
    case Boolean => BooleanTexts();
    case Integer(_, _) =>
      PlainNumber(spec, before, value.n);
      ToIntInRange(value.n);
    case _ =>
  }

  lemma OptionRestored(o: OptionState, before: Option<Value>)
    requires OptionOk(o)
    ensures SetValue(o.spec, before, TextOf(o)).value == o.value
  {
    if o.value.Some? { TextSetsValue(o.spec, o.value.value, before); }
  }

  // --------------------------------------------------------------- reading whole files

  predicate DistinctOptions(options: seq<OptionState>) {
    forall j, k :: 0 <= j < k < |options| ==> StrCaseCmp(options[j].name, options[k].name) != 0
  }

  predicate DistinctSections(sections: FileState) {
    forall j, k :: 0 <= j < k < |sections| ==> StrCaseCmp(sections[j].name, sections[k].name) != 0
  }

  predicate SectionOk(s: SectionState) {
    && SectionNameOk(s.name) && |SectionText(s.name)| < LINE_MAX
    && DistinctOptions(s.options) && forall k :: 0 <= k < |s.options| ==> OptionOk(s.options[k])
  }

  /** The stores that are written and read back: names and values that a line can hold. */
  predicate Writable(sections: FileState) {
    DistinctSections(sections) && forall i :: 0 <= i < |sections| ==> SectionOk(sections[i])
  }

  predicate SameOption(a: OptionState, b: OptionState) { a.name == b.name && a.spec == b.spec }

  predicate SameSection(a: SectionState, b: SectionState) {
    && a.name == b.name && |a.options| == |b.options|
    && forall k :: 0 <= k < |a.options| ==> SameOption(a.options[k], b.options[k])
  }

  /** The same sections and options, whatever their values. */
  predicate SameShape(a: FileState, b: FileState) {
    |a| == |b| && forall i :: 0 <= i < |a| ==> SameSection(a[i], b[i])
  }

  predicate RestoredSection(t: SectionState, s: SectionState, k: nat) {
    && SameSection(t, s) && k <= |s.options|
    && forall j :: 0 <= j < k ==> t.options[j] == s.options[j].(loaded := true)
  }

  /** The sections before the `i`-th have been read back. */
  predicate Restored(t: FileState, s: FileState, i: nat) {
    && SameShape(t, s) && i <= |s|
    && forall j :: 0 <= j < i ==> RestoredSection(t[j], s[j], |s[j].options|)
  }

  lemma FindOptionIs(options: seq<OptionState>, names: seq<OptionState>, k: nat)
    requires |options| == |names| && k < |names| && DistinctOptions(names)
    requires forall j :: 0 <= j < |names| ==> options[j].name == names[j].name
    ensures FindOption(options, names[k].name) == Some(k)
  {
    StrCaseCmpPreorder(names[k].name, names[k].name, names[k].name);
    IndexOfUnique(OptionNames(options), names[k].name, k);
  }

  lemma FindSectionIs(sections: FileState, names: FileState, k: nat)
    requires |sections| == |names| && k < |names| && DistinctSections(names)
    requires forall j :: 0 <= j < |names| ==> sections[j].name == names[j].name
    ensures FindSection(sections, names[k].name) == Some(k)
  {
    StrCaseCmpPreorder(names[k].name, names[k].name, names[k].name);
    IndexOfUnique(SectionNames(sections), names[k].name, k);
  }

  /** One whole line is read at a time. */
  lemma ReadOneLine(r: Reading, l: string, rest: string)
    requires ValidReading(r) && '\n' !in l && |l| < LINE_MAX
    ensures ReadText(r, l + ("\n" + rest)) == ReadText(ReadLine(r, l + "\n"), rest)
  {
    hide FirstLine, ReadLine;
    FirstLineIs(l, rest, LINE_MAX);
    var text := l + ("\n" + rest);
    assert text[..|l| + 1] == l + "\n" && text[|l| + 1..] == rest;
  }

  /** Reading the line of the `k`-th option of the current section restores that option. */
  lemma OptionStep(t: FileState, s: FileState, i: nat, k: nat)
    requires Writable(s) && SameShape(t, s) && i < |s| && k < |s[i].options| && RestoredSection(t[i], s[i], k)
    ensures var r := ReadLine(Reading(t, Some(i)), OptionText(s[i].options[k]) + "\n");
            && r.section == Some(i) && SameShape(r.sections, s)
            && r.sections == t[i := r.sections[i]] && RestoredSection(r.sections[i], s[i], k + 1)
  {
    var o := s[i].options[k];
    assert SectionOk(s[i]) && OptionOk(o) && SameSection(t[i], s[i]) && SameOption(t[i].options[k], o);
    OptionLineReads(o);
    WholeLine(OptionText(o));
    FindOptionIs(t[i].options, s[i].options, k);
    OptionRestored(o, t[i].options[k].value);
    var o' := SetOption(t[i].options[k], TextOf(o));
    assert o' == o.(loaded := true);
    var u := UpdateOption(t, i, k, o');
    assert RestoredSection(u[i], s[i], k + 1);
    assert u == t[i := u[i]];
  }

  lemma OptionRead(t: FileState, s: FileState, i: nat, k: nat, rest: string) returns (u: FileState)
    requires Writable(s) && SameShape(t, s) && i < |s| && k < |s[i].options| && RestoredSection(t[i], s[i], k)
    ensures SameShape(u, s) && u == t[i := u[i]] && RestoredSection(u[i], s[i], k + 1)
    ensures ReadText(Reading(t, Some(i)), OptionText(s[i].options[k]) + ("\n" + rest))
            == ReadText(Reading(u, Some(i)), rest)
  {
    var l := OptionText(s[i].options[k]);
    assert '\n' !in l && |l| < LINE_MAX by {
      assert SectionOk(s[i]) && OptionOk(s[i].options[k]);
      OptionLineReads(s[i].options[k]);
    }
    u := ReadLine(Reading(t, Some(i)), l + "\n").sections;
    OptionStep(t, s, i, k);
    ReadOneLine(Reading(t, Some(i)), l, rest);
  }

  lemma {:induction false} OptionsRead(t: FileState, s: FileState, i: nat, k: nat, rest: string) returns (u: FileState)
    requires Writable(s) && SameShape(t, s) && i < |s| && k <= |s[i].options| && RestoredSection(t[i], s[i], k)
    ensures SameShape(u, s) && u == t[i := u[i]] && RestoredSection(u[i], s[i], |s[i].options|)
    ensures ReadText(Reading(t, Some(i)), WriteOptions(s[i].options[k..]) + rest)
            == ReadText(Reading(u, Some(i)), rest)
    decreases |s[i].options| - k
  {
    hide ReadText, OptionText, Writable, RestoredSection;
    var options := s[i].options[k..];
    if options == [] {
      u := t;
      assert WriteOptions(options) + rest == rest;
    } else {
      assert options[0] == s[i].options[k] && options[1..] == s[i].options[k + 1..];
      var more := WriteOptions(options[1..]) + rest;
      assert WriteOptions(options) + rest == OptionText(options[0]) + ("\n" + more);
      var v := OptionRead(t, s, i, k, more);
      u := OptionsRead(v, s, i, k + 1, rest);
    }
  }

  /** The line of a section makes it current. */
  lemma HeaderStep(t: FileState, section: Option<nat>, s: FileState, i: nat)
    requires Writable(s) && SameShape(t, s) && i < |s| && ValidReading(Reading(t, section))
    ensures ReadLine(Reading(t, section), SectionText(s[i].name) + "\n") == Reading(t, Some(i))
  {
    hide ParseLine, FindSection, Before, SectionText;
    assert SectionOk(s[i]);
    SectionTextHasNoNul(s[i].name);
    WholeLine(SectionText(s[i].name));
    HeaderLineIff(s[i].name);
    forall j | 0 <= j < |s| ensures t[j].name == s[j].name { assert SameSection(t[j], s[j]); }
    FindSectionIs(t, s, i);
  }

  lemma SectionTextHasNoNul(name: string)
    requires '\0' !in name
    ensures '\0' !in SectionText(name)
  {}

  lemma BlankStep(r: Reading, rest: string)
    requires ValidReading(r)
    ensures ReadText(r, "\n" + rest) == ReadText(r, rest)
  {
    ReadOneLine(r, "", rest);
    WholeLine("");
    assert "" + ("\n" + rest) == "\n" + rest && "" + "\n" == "\n";
  }

  lemma CommentStep(r: Reading, l: string, rest: string)
    requires ValidReading(r) && l != "" && l[0] == '#' && '\n' !in l && '\0' !in l && |l| < LINE_MAX
    ensures ReadText(r, l + ("\n" + rest)) == ReadText(r, rest)
  {
    assert ReadLine(r, l + "\n") == r by { WholeLine(l); assert (l + "\n")[0] == '#'; }
    ReadOneLine(r, l, rest);
  }

  lemma SectionRead(t: FileState, section: Option<nat>, s: FileState, i: nat, rest: string) returns (u: FileState)
    requires Writable(s) && Restored(t, s, i) && i < |s| && ValidReading(Reading(t, section))
    ensures SameShape(u, s) && u == t[i := u[i]] && RestoredSection(u[i], s[i], |s[i].options|)
    ensures ReadText(Reading(t, section),
                     "\n" + (SectionText(s[i].name) + ("\n" + (WriteOptions(s[i].options) + rest))))
            == ReadText(Reading(u, Some(i)), rest)
  {
    var l, body := SectionText(s[i].name), WriteOptions(s[i].options) + rest;
    assert SectionOk(s[i]) && SameSection(t[i], s[i]);
    assert ReadText(Reading(t, section), "\n" + (l + ("\n" + body))) == ReadText(Reading(t, Some(i)), body) by {
      BlankStep(Reading(t, section), l + ("\n" + body));
      ReadOneLine(Reading(t, section), l, body);
      HeaderStep(t, section, s, i);
    }
    assert s[i].options[0..] == s[i].options;
    u := OptionsRead(t, s, i, 0, rest);
  }

  lemma NextRestored(t: FileState, u: FileState, s: FileState, i: nat)
    requires Restored(t, s, i) && i < |s| && SameShape(u, s)
    requires u == t[i := u[i]] && RestoredSection(u[i], s[i], |s[i].options|)
    ensures Restored(u, s, i + 1)
  {
    forall j | 0 <= j < i + 1 ensures RestoredSection(u[j], s[j], |s[j].options|) {
      if j < i { assert RestoredSection(t[j], s[j], |s[j].options|); }
    }
  }

  lemma {:induction false} SectionsRead(t: FileState, section: Option<nat>, s: FileState, i: nat) returns (u: FileState)
    requires Writable(s) && Restored(t, s, i) && ValidReading(Reading(t, section))
    ensures ReadText(Reading(t, section), WriteSections(s[i..])).sections == u && Restored(u, s, |s|)
    decreases |s| - i
  {
    if i == |s| {
      u := t;
    } else {
      var rest := s[i + 1..];
      assert s[i..][1..] == rest && s[i..][0] == s[i];
      u := SectionRead(t, section, s, i, WriteSections(rest));
      assert WriteSections(s[i..])
          == "\n" + (SectionText(s[i].name) + ("\n" + (WriteOptions(s[i].options) + WriteSections(rest))));
      NextRestored(t, u, s, i);
      u := SectionsRead(u, Some(i), s, i + 1);
    }
  }

  function Load(o: OptionState): OptionState { o.(loaded := true) }

  lemma RestoredIsLoaded(u: FileState, s: FileState)
    requires Restored(u, s, |s|)
    ensures u == MapOptions(s, Load) && MapOptions(u, ResetIfMissing) == u
  {
    forall i | 0 <= i < |s| ensures u[i] == MapOptions(s, Load)[i] && MapOptions(u, ResetIfMissing)[i] == u[i] {
      assert RestoredSection(u[i], s[i], |s[i].options|);
      assert u[i].options == MapList(s[i].options, Load);
      assert MapList(u[i].options, ResetIfMissing) == u[i].options;
    }
  }

  lemma UnloadKeepsShape(before: FileState, s: FileState)
    requires SameShape(before, s)
    ensures SameShape(MapOptions(before, Unload), s)
  {
    forall i | 0 <= i < |s| ensures SameSection(MapOptions(before, Unload)[i], s[i]) {
      assert SameSection(before[i], s[i]);
      var list := MapList(before[i].options, Unload);
      forall k | 0 <= k < |list| ensures SameOption(list[k], s[i].options[k]) {
        assert list[k] == Unload(before[i].options[k]) && SameOption(before[i].options[k], s[i].options[k]);
      }
    }
  }

  /** Writing a store and reloading the file in a program that has the same options, with any
      current values, gives back every value, null included. */
  lemma WriteThenReloadRestores(title: string, filename: string, s: FileState, before: FileState)
    requires Writable(s) && SameShape(before, s)
    requires '\n' !in title && '\n' !in filename && '\0' !in title && '\0' !in filename
    requires |title| + |filename| + 6 < LINE_MAX
    ensures Reload(before, WriteFile(title, filename, s)) == MapOptions(s, Load)
  {
    hide ReadText, Writable, WriteSections, SameShape, MapOptions;
    var t := MapOptions(before, Unload);
    UnloadKeepsShape(before, s);
    var r := Reading(t, None);
    var body := WriteSections(s);
    var l := "# " + title + " -- " + filename;
    assert WriteFile(title, filename, s) == "#" + ("\n" + (l + ("\n" + ("#" + ("\n" + body)))));
    CommentStep(r, "#", l + ("\n" + ("#" + ("\n" + body))));
    CommentStep(r, l, "#" + ("\n" + body));
    CommentStep(r, "#", body);
    assert s[0..] == s;
    var u := SectionsRead(t, None, s, 0);
    RestoredIsLoaded(u, s);
  }

  // -------------------------------------------------------- options that the file does not set

  /** What the lines of a text say, in order. */
  function Lines(text: string): seq<Line>
    decreases |text|
  {
    if text == "" then [] else [FirstRead(text)] + Lines(text[FirstLine(text, LINE_MAX)..])
  }

  /** Some line sets an option of that name, in whatever section. */
  predicate SetsName(lines: seq<Line>, name: string) {
    exists k :: 0 <= k < |lines| && lines[k].Setting? && StrCaseCmp(name, lines[k].name) == 0
  }

  /** The option that a line sets: in the current section, or without one in the first section that
      has it, the first option of that name. */
  lemma {:induction false} LocateIsFirst(sections: FileState, from: nat, name: string)
    requires from <= |sections|
    ensures match LocateAnywhere(sections, from, name)
            case None => forall i :: from <= i < |sections| ==> FindOption(sections[i].options, name) == None
            case Some((i, k)) =>
              from <= i && FindOption(sections[i].options, name) == Some(k)
              && forall j :: from <= j < i ==> FindOption(sections[j].options, name) == None
    decreases |sections| - from
  {
    if from < |sections| && FindOption(sections[from].options, name) == None {
      LocateIsFirst(sections, from + 1, name);
    }
  }

  lemma LocatedName(sections: FileState, section: Option<nat>, name: string)
    requires section.Some? ==> section.value < |sections|
    ensures match Locate(sections, section, name)
            case None => true
            case Some((i, k)) => StrCaseCmp(sections[i].options[k].name, name) == 0
  {
    hide StrCaseCmp, IndexOf;
    LocateIsFirst(sections, 0, name);
    if Locate(sections, section, name).Some? {
      var (i, k) := Locate(sections, section, name).value;
      IndexOfIsFirst(OptionNames(sections[i].options), name);
    }
  }

  predicate HasOption(sections: FileState, i: nat, k: nat) { i < |sections| && k < |sections[i].options| }

  /** `i` is the first section of that name. */
  predicate IsSection(sections: FileState, name: string, i: nat) {
    && i < |sections| && StrCaseCmp(sections[i].name, name) == 0
    && forall j :: 0 <= j < i ==> StrCaseCmp(sections[j].name, name) != 0
  }

  /** Only the option at `k` of section `i` differs. */
  predicate OthersStay(after: FileState, before: FileState, i: nat, k: nat) {
    && SameShape(after, before)
    && forall i2, k2 :: 0 <= i2 < |before| && 0 <= k2 < |before[i2].options| && (i2 != i || k2 != k) ==>
         after[i2].options[k2] == before[i2].options[k2]
  }

  /** What a line that has been taken apart does: a header makes the first section of that name the
      current one, or none when there is no such section; an option is set as from its text, counts
      as loaded, and no other changes; a comment, an incomplete header and the name of an option that
      is not there do nothing. */
  lemma LineEffect(r: Reading, what: Line)
    requires ValidReading(r)
    ensures var after := ReadParsed(r, what);
            match what
            case Ignored => after == r
            case Header(None) => after == r
            case Header(Some(name)) =>
              && after.sections == r.sections
              && (match after.section
                  case None => forall i: nat :: !IsSection(r.sections, name, i)
                  case Some(i) => IsSection(r.sections, name, i))
            case Setting(name, text) =>
              match Locate(r.sections, r.section, name)
              case None => after == r
              case Some((i, k)) =>
                && after.section == r.section && OthersStay(after.sections, r.sections, i, k)
                && after.sections[i].options[k].loaded
                && after.sections[i].options[k].value
                   == SetValue(r.sections[i].options[k].spec, r.sections[i].options[k].value, text).value
  {
    hide StrCaseCmp, FindOption, Locate, SetValue, IndexOf;
    match what
    case Header(Some(name)) =>
      var names := SectionNames(r.sections);
      IndexOfIsFirst(names, name);
      assert forall i :: 0 <= i < |names| ==> names[i] == r.sections[i].name;
    case _ =>
  }

  lemma ReadParsedKeeps(r: Reading, what: Line, i: nat, k: nat)
    requires ValidReading(r) && HasOption(r.sections, i, k)
    requires what.Setting? ==> StrCaseCmp(r.sections[i].options[k].name, what.name) != 0
    ensures var after := ReadParsed(r, what).sections;
            HasOption(after, i, k) && after[i].options[k] == r.sections[i].options[k]
  {
    hide StrCaseCmp, FindOption, FindSection, SetOption, Locate;
    if what.Setting? { LocatedName(r.sections, r.section, what.name); }
  }

  /** Lines that do not set an option of that name leave it alone. */
  lemma {:induction false} ReadTextKeeps(r: Reading, text: string, i: nat, k: nat)
    requires ValidReading(r) && HasOption(r.sections, i, k)
    requires !SetsName(Lines(text), r.sections[i].options[k].name)
    ensures var after := ReadText(r, text).sections;
            HasOption(after, i, k) && after[i].options[k] == r.sections[i].options[k]
    decreases |text|
  {
    hide StrCaseCmp, ReadParsed, ParseLine, FirstLine, Before;
    if text != "" {
      var (lines, rest) := (Lines(text), text[FirstLine(text, LINE_MAX)..]);
      assert lines[0] == FirstRead(text) && lines[1..] == Lines(rest);
      var next := ReadParsed(r, FirstRead(text));
      ReadParsedKeeps(r, FirstRead(text), i, k);
      assert !SetsName(Lines(rest), next.sections[i].options[k].name) by {
        assert forall m :: 0 <= m < |lines| - 1 ==> Lines(rest)[m] == lines[m + 1];
      }
      ReadTextKeeps(next, rest, i, k);
    }
  }

  /** After a reload an option that no line of the file sets has its default value, or is null
      without one; it keeps its value only when it has no default and must not be null. */
  lemma ReloadResetsMissing(sections: FileState, text: string, i: nat, k: nat)
    requires HasOption(sections, i, k) && !SetsName(Lines(text), sections[i].options[k].name)
    ensures var (o, after) := (sections[i].options[k], Reload(sections, text));
            HasOption(after, i, k) && after[i].options[k].name == o.name
            && after[i].options[k].value
               == if o.spec.default.Some? || o.spec.nullAllowed then o.spec.default else o.value
  {
    hide ReadText, Lines, SetsName, ResetValue;
    var cleared := MapOptions(sections, Unload);
    assert cleared[i].options[k] == Unload(sections[i].options[k]);
    ReadTextKeeps(Reading(cleared, None), text, i, k);
    var read := ReadText(Reading(cleared, None), text).sections;
    assert MapOptions(read, ResetIfMissing)[i].options[k] == ResetIfMissing(read[i].options[k]);
    ResetGivesDefault(sections[i].options[k].spec, sections[i].options[k].value);
  }
}
