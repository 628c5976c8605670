/**
 One line of a configuration file: exactly which options and sections are read back from the
 line that is printed for them.
 */
module ConfigLine {
  import opened CString
  import opened ConfigValue
  import opened ConfigText

  // ---------------------------------------------------------------- what a line can keep

  /** No line break, and like all C strings no NUL. */
  predicate NoBreak(s: string) { '\r' !in s && '\n' !in s && '\0' !in s }

  /** A text that is read back as it is without quotes. */
  predicate PlainText(s: string) {
    && s != "" && s[0] != ' ' && s[|s| - 1] != ' ' && NoBreak(s)
    && StrCaseCmp(s, OPTION_NULL) != 0 && !(|s| > 1 && InQuotes(s))
  }

  /** Behind spaces stands a character that would be escaped at the beginning. */
  predicate Hides(name: string, c: char) { name != "" && name[0] == ' ' && [c] <= SkipSpaces(name) }

  /** The name shows the reader that its line is a setting. */
  predicate ShowsSetting(name: string) {
    SkipSpaces(name) != "" && !Hides(name, '#') && (Hides(name, '[') ==> '=' in name)
  }

  /** The names that are read from a line with a value. */
  predicate KeptBeforeValue(name: string) {
    && NoBreak(name) && FindEquals(name) == None && !Hides(name, '#')
    && (|name| > 1 ==> name[|name| - 1] != ' ')
  }

  /** The names that are read from a line without a value. */
  predicate KeptAlone(name: string) { NoBreak(name) && FindEquals(name) == None && ShowsSetting(name) }

  /** What is to be read back for the value of an option. */
  function TextOf(o: OptionState): Option<string> {
    if o.value.Some? then Some(ValueText(o.spec, o.value.value)) else None
  }

  predicate TextKept(spec: Spec, text: string) { if spec.kind.Str? then NoBreak(text) else PlainText(text) }

  predicate NameKept(o: OptionState) { if o.value.Some? then KeptBeforeValue(o.name) else KeptAlone(o.name) }

  predicate LineKept(o: OptionState) { NameKept(o) && (o.value.Some? ==> TextKept(o.spec, TextOf(o).value)) }

  predicate SectionNameOk(name: string) { ']' !in name && '=' !in name && '\n' !in name && '\0' !in name }

  /** What the first line that is read from a text says. */
  function FirstRead(text: string): Line { ParseLine(Before(text[..FirstLine(text, LINE_MAX)], '\0')) }

  // -------------------------------------------------------------------- pieces of lines

  lemma {:induction false} BeforeNone(s: string, c: char, rest: string)
    requires c !in s
    ensures Before(s, c) == s && Before(s + ([c] + rest), c) == s
  {
    if s == "" {
      assert s + ([c] + rest) == [c] + rest;
    } else {
      BeforeNone(s[1..], c, rest);
      assert (s + ([c] + rest))[0] == s[0] && (s + ([c] + rest))[1..] == s[1..] + ([c] + rest);
      assert s == [s[0]] + s[1..];
    }
  }

  lemma WholeLine(s: string)
    requires '\0' !in s
    ensures Before(s + "\n", '\0') == s + "\n"
  {
    assert '\0' !in s + "\n";
    BeforeNone(s + "\n", '\0', "");
  }

  lemma LineWithoutBreak(s: string)
    requires NoBreak(s)
    ensures Before(Before(s + "\n", '\r'), '\n') == s
  {
    assert '\r' !in s + "\n";
    BeforeNone(s + "\n", '\r', "");
    assert s + "\n" == s + (['\n'] + "");
    BeforeNone(s, '\n', "");
  }

  lemma {:induction false} FirstLineIs(l: string, rest: string, room: nat)
    requires '\n' !in l && |l| < room
    ensures FirstLine(l + ("\n" + rest), room) == |l| + 1
  {
    if l == "" {
      assert l + ("\n" + rest) == "\n" + rest;
    } else {
      assert (l + ("\n" + rest))[1..] == l[1..] + ("\n" + rest);
      FirstLineIs(l[1..], rest, room - 1);
    }
  }

  lemma FirstReadIs(l: string, rest: string)
    requires '\n' !in l && '\0' !in l && |l| < LINE_MAX
    ensures FirstRead(l + ("\n" + rest)) == ParseLine(l + "\n")
  {
    hide ParseLine, FirstLine, Before;
    FirstLineIs(l, rest, LINE_MAX);
    assert (l + ("\n" + rest))[..|l| + 1] == l + "\n";
    WholeLine(l);
  }

  lemma {:induction false} SkipSpacesAppend(a: string, b: string)
    ensures SkipSpaces(a + b) == if SkipSpaces(a) == "" then SkipSpaces(b) else SkipSpaces(a) + b
  {
    if a == "" {
      assert a + b == b;
    } else {
      assert (a + b)[0] == a[0] && (a + b)[1..] == a[1..] + b;
      if a[0] == ' ' { SkipSpacesAppend(a[1..], b); }
    }
  }

  lemma {:induction false} SkipSpacesIn(s: string, c: char)
    requires c != ' '
    ensures c in SkipSpaces(s) <==> c in s
  {
    if s != "" && s[0] == ' ' {
      SkipSpacesIn(s[1..], c);
      assert s == [' '] + s[1..];
    }
  }

  lemma {:induction false} FindEqualsPrefix(a: string, b: string)
    requires FindEquals(a).Some?
    ensures FindEquals(a + b) == FindEquals(a)
  {
    var c := a + b;
    assert c[0] == a[0] && c[1] == a[1] && c[1..] == a[1..] + b;
    if !(a[0] == ' ' && a[1] == '=') { FindEqualsPrefix(a[1..], b); }
  }

  lemma {:induction false} FindEqualsAppend(a: string, b: string)
    requires FindEquals(a) == None && |b| >= 2 && b[0] == ' ' && b[1] == '='
    ensures FindEquals(a + b) == Some(|a|)
  {
    var c := a + b;
    if a == "" {
      assert c == b;
    } else {
      assert c[0] == a[0] && c[1..] == a[1..] + b;
      assert c[1] == if |a| > 1 then a[1] else b[0];
      FindEqualsAppend(a[1..], b);
    }
  }

  // -------------------------------------------------------------- escapes and first characters

  lemma EscapeIsTakenAway(name: string)
    ensures var e := Escape(name) + name;
            && Unescape(e) == name && (FindEquals(e) == None <==> FindEquals(name) == None)
            && (FindEquals(e).Some? ==> FindEquals(e).value < |e|)
            && (NoBreak(name) ==> NoBreak(e))
  {
    var e := Escape(name) + name;
    if Escape(name) == "\\" { assert e[0] == '\\' && e[1..] == name; } else { assert e == name; }
  }

  /** What the reader sees first on a line. */
  lemma StartOfLine(name: string, rest: string)
    ensures var l := Escape(name) + name + rest;
            SkipSpaces(l) == if Escape(name) != "" || SkipSpaces(name) == name != "" then l
                             else if SkipSpaces(name) == "" then SkipSpaces(rest)
                             else SkipSpaces(name) + rest
  {
    var e := Escape(name) + name;
    if Escape(name) != "" {
      assert (e + rest)[0] == '\\';
    } else {
      assert e == name;
      SkipSpacesAppend(name, rest);
    }
  }

  lemma ReadSettingIsSetting(line: string)
    ensures ReadSetting(line).Setting?
  {}

  /** How the beginning of a line decides what it is. */
  lemma LineIs(l: string)
    requires NoBreak(l)
    ensures var t := SkipSpaces(l);
            if t == "" || t[0] == '#' then ParseLine(l + "\n") == Ignored
            else if t[0] == '[' && '=' !in t then ParseLine(l + "\n").Header?
            else ParseLine(l + "\n") == ReadSetting(l + "\n") && ParseLine(l + "\n").Setting?
  {
    hide ReadSetting, Before;
    ReadSettingIsSetting(l + "\n");
    var t := SkipSpaces(l);
    SkipSpacesAppend(l, "\n");
    if t != "" {
      assert (t + "\n")[0] == t[0] && ('=' in t + "\n" <==> '=' in t);
      SkipSpacesIn(l, '\r');
      SkipSpacesIn(l, '\n');
      assert t[0] in t;
    }
  }

  /** When the escape makes every line that begins with the name a setting: a name that does not
      begin with a space needs no more, one that does must not hide a # or a [ behind its spaces. */
  lemma EscapeProtectsIff(name: string)
    requires NoBreak(name)
    ensures (forall rest :: NoBreak(rest) ==> ParseLine(Escape(name) + name + rest + "\n").Setting?)
            <==> ShowsSetting(name)
  {
    hide ParseLine;
    forall rest | NoBreak(rest) && ShowsSetting(name) ensures ParseLine(Escape(name) + name + rest + "\n").Setting? {
      SettingShows(name, rest);
    }
    if !ShowsSetting(name) {
      var l := Escape(name) + name + "";
      assert NoBreak("") && l == name;
      StartOfLine(name, "");
      LineIs(l);
      SkipSpacesIn(name, '=');
      assert !ParseLine(Escape(name) + name + "" + "\n").Setting?;
    }
  }

  lemma SettingShows(name: string, rest: string)
    requires NoBreak(name) && NoBreak(rest) && ShowsSetting(name)
    ensures ParseLine(Escape(name) + name + rest + "\n").Setting?
  {
    hide ParseLine;
    var l := Escape(name) + name + rest;
    StartOfLine(name, rest);
    EscapeIsTakenAway(name);
    LineIs(l);
    SkipSpacesIn(name, '=');
    SkipSpacesFirst(name);
  }

  // -------------------------------------------------------------------- settings read exactly

  lemma SettingIs(l: string)
    requires NoBreak(l)
    ensures ReadSetting(l + "\n")
            == match FindEquals(l)
               case None => Setting(Unescape(l), None)
               case Some(p) => Setting(Unescape(CutSpaces(l[..p])), ReadValue(l[p + 2..]))
  {
    hide Before;
    LineWithoutBreak(l);
  }

  lemma {:induction false} CutSpacesIs(s: string)
    ensures CutSpaces(s) <= s && (s != "" ==> CutSpaces(s) != "")
    ensures CutSpaces(s) == s <==> (|s| > 1 ==> s[|s| - 1] != ' ')
  {
    if |s| > 1 && s[|s| - 1] == ' ' { CutSpacesIs(s[..|s| - 1]); }
  }

  /** Less than the escaped name gives less than the name. */
  lemma LessIsLost(name: string, part: string)
    requires part <= Escape(name) + name && |part| < |Escape(name) + name|
    ensures Unescape(CutSpaces(part)) != name && Unescape(part) != name
  {
    CutSpacesIs(part);
    assert part != "" && Escape(name) != "" ==> part[0] == '\\' && CutSpaces(part)[0] == '\\';
  }

  lemma NameOfSetting(name: string)
    ensures Unescape(CutSpaces(Escape(name) + name)) == name <==> (|name| > 1 ==> name[|name| - 1] != ' ')
  {
    hide CutSpaces, Unescape, Escape, FindEquals;
    var e := Escape(name) + name;
    CutSpacesIs(e);
    EscapeIsTakenAway(name);
    EndOfEscaped(name);
    if CutSpaces(e) != e { LessIsLost(name, CutSpaces(e)); }
  }

  lemma EndOfEscaped(name: string)
    ensures var e := Escape(name) + name;
            && (name != "" ==> e != "")
            && ((|e| > 1 ==> e[|e| - 1] != ' ') <==> (|name| > 1 ==> name[|name| - 1] != ' '))
  {}

  function ValueLine(name: string, q: string): string { Escape(name) + name + (" = " + q) }

  lemma AfterEquals(e: string, q: string)
    ensures var l := e + (" = " + q); l[..|e|] == e && l[|e| + 2..] == " " + q
  {
    assert (" = " + q)[2..] == " " + q;
  }

  lemma ValueLineHasNoBreak(name: string, q: string)
    requires NoBreak(name) && NoBreak(q)
    ensures NoBreak(ValueLine(name, q))
  {
    EscapeIsTakenAway(name);
  }

  /** A line with a value is a setting unless a # comes first on it. */
  lemma ValueLineIsSetting(name: string, q: string)
    requires NoBreak(name) && NoBreak(q)
    ensures var l := ValueLine(name, q);
            ParseLine(l + "\n") == if Hides(name, '#') then Ignored else ReadSetting(l + "\n")
  {
    hide ParseLine, ReadSetting, Before;
    var rest := " = " + q;
    var l := Escape(name) + name + rest;
    ValueLineHasNoBreak(name, q);
    StartOfLine(name, rest);
    LineIs(l);
    assert SkipSpaces(rest) == rest[1..] && rest[1] == '=';
    SkipSpacesIn(l, '=');
  }

  /** A line with a value. */
  lemma ValueLineIff(name: string, q: string, v: string)
    requires NoBreak(name) && NoBreak(q)
    ensures ParseLine(ValueLine(name, q) + "\n") == Setting(name, Some(v))
            <==> KeptBeforeValue(name) && ReadValue(" " + q) == Some(v)
  {
    hide ParseLine, ReadSetting, ReadValue, CutSpaces, Before, Hides;
    var e, rest := Escape(name) + name, " = " + q;
    ValueLineIsSetting(name, q);
    ValueLineHasNoBreak(name, q);
    SettingIs(e + rest);
    EscapeIsTakenAway(name);
    AfterEquals(e, q);
    if FindEquals(e).Some? {
      FindEqualsPrefix(e, rest);
      var p := FindEquals(e).value;
      assert (e + rest)[..p] == e[..p];
      LessIsLost(name, e[..p]);
    } else {
      FindEqualsAppend(e, rest);
      NameOfSetting(name);
    }
  }

  /** A line without a value. */
  lemma NameLineIff(name: string)
    requires NoBreak(name)
    ensures ParseLine(Escape(name) + name + "\n") == Setting(name, None) <==> KeptAlone(name)
  {
    hide ParseLine, ReadSetting, CutSpaces, Before, FindEquals;
    var l := Escape(name) + name;
    assert l + "" == l;
    EscapeIsTakenAway(name);
    StartOfLine(name, "");
    LineIs(l);
    SettingIs(l);
    SkipSpacesIn(name, '=');
    SkipSpacesFirst(name);
    if FindEquals(l).Some? { LessIsLost(name, l[..FindEquals(l).value]); }
  }

  // ------------------------------------------------------------------------- values read exactly

  /** Quotes protect any text, the empty one and one in quotes included. */
  lemma ReadQuoted(s: string)
    ensures ReadValue(" " + ("\"" + s + "\"")) == Some(s)
  {
    var q := "\"" + s + "\"";
    assert (" " + q)[1..] == q && q[0] == '"' && q[|q| - 1] == '"';
    assert StrCaseCmp(q, OPTION_NULL) != 0 by { assert FoldChar('"') == '"' && FoldChar('n') == 'n'; }
    assert SkipSpaces(q) == q && CutSpaces(q) == q;
    assert Unquote(q) == s;
  }

  lemma {:induction false} SkipSpacesShortens(s: string)
    ensures SkipSpaces(s) == s <==> s == "" || s[0] != ' '
    ensures |SkipSpaces(s)| == |s| ==> SkipSpaces(s) == s
  {}

  /** Without quotes a text is read as it is exactly when it is plain. */
  lemma ReadPlainIff(t: string)
    requires NoBreak(t)
    ensures ReadValue(" " + t) == Some(t) <==> PlainText(t)
  {
    hide StrCaseCmp;
    assert (" " + t)[1..] == t;
    var u := SkipSpaces(t);
    SkipSpacesShortens(t);
    CutSpacesIs(u);
  }

  // --------------------------------------------------------------- lines written by hand

  lemma {:induction false} CutSpacesPast(s: string, n: nat)
    requires s != "" && (|s| > 1 ==> s[|s| - 1] != ' ')
    ensures CutSpaces(s + Spaces(n)) == s
  {
    if n == 0 {
      assert s + Spaces(0) == s;
    } else {
      assert (s + Spaces(n))[..|s| + n - 1] == s + Spaces(n - 1);
      CutSpacesPast(s, n - 1);
    }
  }

  lemma {:induction false} FindEqualsPast(a: string, n: nat)
    requires FindEquals(a) == None
    ensures FindEquals(a + Spaces(n)) == None
    decreases |a| + n
  {
    var c := a + Spaces(n);
    if |c| >= 2 {
      if a == "" {
        assert c[1..] == "" + Spaces(n - 1);
        FindEqualsPast("", n - 1);
      } else {
        assert c[1..] == a[1..] + Spaces(n) && c[1] == if |a| > 1 then a[1] else ' ';
        FindEqualsPast(a[1..], n);
      }
    }
  }

  lemma SpacesHaveNoBreak(n: nat)
    ensures NoBreak(Spaces(n))
  {}

  /** A text in single or in double quotes. */
  predicate Enclosed(q: string) {
    |q| >= 2 && ((q[0] == '"' && q[|q| - 1] == '"') || (q[0] == '\'' && q[|q| - 1] == '\''))
  }

  predicate OneQuote(q: string) { q == "\"" || q == "'" }

  /** What stands for a value, with any spaces around it: nothing is null, and so is "null" in any
      case at the very end of the line; a pair of quotes is taken off, and for a pair counts also a
      single quote with a space after it; else the text is the value. */
  lemma ReadSpaced(j: nat, q: string, k: nat)
    requires q != "" ==> q[0] != ' ' && q[|q| - 1] != ' '
    ensures ReadValue(Spaces(j) + (q + Spaces(k)))
            == if q == "" || (k == 0 && StrCaseCmp(q, "null") == 0) then None
               else if Enclosed(q) then Some(q[1..|q| - 1])
               else if k > 0 && OneQuote(q) then Some("")
               else Some(q)
  {
    hide StrCaseCmp, ReadValue, CutSpaces, SkipSpaces, Unquote, Enclosed, OneQuote;
    var t := q + Spaces(k);
    if q == "" {
      OnlySpaces(j, k);
      ReadBlank(Spaces(j) + t);
    } else {
      SkipSpacesPast(j, t);
      SpacedText(q, k);
      CutSpacesPast(q, k);
      ReadTrimmed(Spaces(j) + t, t);
      UnquoteIs(q);
    }
  }

  lemma OnlySpaces(j: nat, k: nat)
    ensures SkipSpaces(Spaces(j) + ("" + Spaces(k))) == ""
  {
    assert Spaces(j) + ("" + Spaces(k)) == Spaces(j + k) + "";
    SkipSpacesPast(j + k, "");
  }

  lemma SpacedText(q: string, k: nat)
    requires q != ""
    ensures var t := q + Spaces(k);
            && t[0] == q[0] && |t| == |q| + k && (k == 0 ==> t == q)
            && (k > 0 ==> StrCaseCmp(t, "null") != 0)
  {
    if k > 0 { NotNull(q, k); }
  }

  lemma ReadBlank(s: string)
    requires SkipSpaces(s) == ""
    ensures ReadValue(s) == None
  {}

  lemma ReadTrimmed(s: string, t: string)
    requires SkipSpaces(s) == t != ""
    ensures ReadValue(s) == if StrCaseCmp(t, "null") == 0 then None
                            else if |t| > 1 then Some(Unquote(CutSpaces(t)))
                            else Some(t)
  {
    hide StrCaseCmp, Unquote, CutSpaces;
  }

  lemma UnquoteIs(q: string)
    ensures Unquote(q) == if Enclosed(q) then q[1..|q| - 1] else if OneQuote(q) then "" else q
    ensures |q| <= 1 ==> !Enclosed(q)
    ensures |q| > 1 ==> !OneQuote(q)
  {}

  lemma {:induction false} NotNull(q: string, k: nat)
    requires k > 0
    ensures StrCaseCmp(q + Spaces(k), "null") != 0
  {
    var t := q + Spaces(k);
    EqualWithoutCase(t, "null");
    assert t[|t| - 1] == ' ';
  }

  /** A line with `i` spaces more than needed before the equals sign. */
  function SpacedLine(name: string, i: nat, v: string): string { Escape(name) + name + (Spaces(i) + (" =" + v)) }

  lemma SpacedParts(e: string, i: nat, v: string)
    ensures var (l, p) := (e + (Spaces(i) + (" =" + v)), |e| + i);
            |l| >= p + 2 && l == (e + Spaces(i)) + (" =" + v) && l[..p] == e + Spaces(i) && l[p + 2..] == v
    ensures var b := " =" + v; |b| >= 2 && b[0] == ' ' && b[1] == '='
  {
    assert (" =" + v)[2..] == v;
  }

  lemma SpacedRest(i: nat, v: string)
    ensures var rest := Spaces(i) + (" =" + v); SkipSpaces(rest) == "=" + v && '=' in rest
  {
    var rest := Spaces(i) + (" =" + v);
    assert rest == Spaces(i + 1) + ("=" + v);
    SkipSpacesPast(i + 1, "=" + v);
    SkipSpacesIn(rest, '=');
  }

  lemma SpacedLineHasNoBreak(name: string, i: nat, v: string)
    requires NoBreak(name) && NoBreak(v)
    ensures NoBreak(SpacedLine(name, i, v))
  {
    EscapeIsTakenAway(name);
    SpacesHaveNoBreak(i);
  }

  /** What the reader sees first on a line that goes on with an equals sign. */
  lemma StartBeforeEquals(name: string, rest: string)
    requires '=' in rest && SkipSpaces(rest) != "" && SkipSpaces(rest)[0] == '='
    ensures var t := SkipSpaces(Escape(name) + name + rest);
            t != "" && '=' in t && (t[0] == '#' <==> Hides(name, '#'))
  {
    StartOfLine(name, rest);
    SkipSpacesIn(Escape(name) + name + rest, '=');
  }

  lemma SpacedStart(name: string, i: nat, v: string)
    requires NoBreak(name) && NoBreak(v)
    ensures var l := SpacedLine(name, i, v);
            ParseLine(l + "\n") == if Hides(name, '#') then Ignored else ReadSetting(l + "\n")
  {
    hide ParseLine, ReadSetting, Before, Hides, Escape, SkipSpaces, NoBreak;
    SpacedLineHasNoBreak(name, i, v);
    SpacedRest(i, v);
    StartBeforeEquals(name, Spaces(i) + (" =" + v));
    LineIs(SpacedLine(name, i, v));
  }

  lemma SpacedSetting(name: string, i: nat, v: string)
    requires KeptBeforeValue(name) && name != "" && NoBreak(v)
    ensures ParseLine(SpacedLine(name, i, v) + "\n") == Setting(name, ReadValue(v))
  {
    hide *;
    var e := Escape(name) + name;
    var l := e + (Spaces(i) + (" =" + v));
    KeptMeans(name);
    assert l == SpacedLine(name, i, v) by { SpacedLineIs(name, i, v); }
    SpacedLineHasNoBreak(name, i, v);
    SpacedStart(name, i, v);
    SettingIs(l);
    EscapeIsTakenAway(name);
    EndOfEscaped(name);
    FindEqualsPast(e, i);
    SpacedParts(e, i, v);
    FindEqualsAppend(e + Spaces(i), " =" + v);
    SpacesLength(e, i);
    CutSpacesPast(e, i);
  }

  lemma SpacedLineIs(name: string, i: nat, v: string)
    ensures SpacedLine(name, i, v) == Escape(name) + name + (Spaces(i) + (" =" + v))
  {}

  lemma SpacesLength(e: string, i: nat)
    ensures |e + Spaces(i)| == |e| + i
  {}

  /** A line as one may write it by hand: any number of spaces before the equals sign, at least one,
      and around the value. */
  lemma HandWritten(name: string, i: nat, j: nat, q: string, k: nat)
    requires KeptBeforeValue(name) && name != "" && NoBreak(q)
    requires q != "" ==> q[0] != ' ' && q[|q| - 1] != ' '
    ensures ParseLine(SpacedLine(name, i, Spaces(j) + (q + Spaces(k))) + "\n")
            == Setting(name, if q == "" || (k == 0 && StrCaseCmp(q, "null") == 0) then None
                             else if Enclosed(q) then Some(q[1..|q| - 1])
                             else if k > 0 && OneQuote(q) then Some("")
                             else Some(q))
  {
    hide ParseLine, StrCaseCmp, ReadValue, Enclosed, OneQuote, KeptBeforeValue, NoBreak, SpacedLine;
    SpacedHasNoBreak(j, q, k);
    SpacedSetting(name, i, Spaces(j) + (q + Spaces(k)));
    ReadSpaced(j, q, k);
  }

  lemma KeptMeans(name: string)
    requires KeptBeforeValue(name)
    ensures NoBreak(name) && FindEquals(name) == None && !Hides(name, '#') && (|name| > 1 ==> name[|name| - 1] != ' ')
  {}

  lemma SpacedHasNoBreak(j: nat, q: string, k: nat)
    requires NoBreak(q)
    ensures NoBreak(Spaces(j) + (q + Spaces(k)))
  {}

  // -------------------------------------------------------------------- line breaks are lost

  lemma {:induction false} BeforeHasNone(s: string, c: char)
    ensures c !in Before(s, c)
  {
    if s != "" && s[0] != c { BeforeHasNone(s[1..], c); }
  }

  lemma {:induction false} BeforeKeeps(s: string, c: char, d: char)
    requires d !in s
    ensures d !in Before(s, c)
  {
    if s != "" && s[0] != c { BeforeKeeps(s[1..], c, d); }
  }

  lemma CutHasNoBreak(line: string)
    requires '\0' !in line
    ensures NoBreak(Before(Before(line, '\r'), '\n'))
  {
    hide Before;
    BeforeHasNone(line, '\r');
    BeforeKeeps(line, '\r', '\0');
    BeforeHasNone(Before(line, '\r'), '\n');
    BeforeKeeps(Before(line, '\r'), '\n', '\r');
    BeforeKeeps(Before(line, '\r'), '\n', '\0');
  }

  lemma PartsHaveNoBreak(s: string)
    requires NoBreak(s)
    ensures NoBreak(CutSpaces(s)) && NoBreak(Unescape(s)) && NoBreak(Unquote(s)) && NoBreak(SkipSpaces(s))
  {
    CutSpacesIs(s);
    SkipSpacesIn(s, '\r'); SkipSpacesIn(s, '\n'); SkipSpacesIn(s, '\0');
  }

  lemma ValueHasNoBreak(s: string)
    requires NoBreak(s) && ReadValue(s).Some?
    ensures NoBreak(ReadValue(s).value)
  {
    hide NoBreak, SkipSpaces, CutSpaces, Unquote, StrCaseCmp;
    PartsHaveNoBreak(s);
    PartsHaveNoBreak(SkipSpaces(s));
    PartsHaveNoBreak(CutSpaces(SkipSpaces(s)));
  }

  /** Line breaks are what neither a name nor a value can keep: none is ever read that contains
      one. */
  lemma ReadHasNoBreak(line: string)
    requires ParseLine(Before(line, '\0')).Setting?
    ensures var r := ParseLine(Before(line, '\0')); NoBreak(r.name) && (r.value.Some? ==> NoBreak(r.value.value))
  {
    hide Before, ReadValue, CutSpaces, Unescape, SkipSpaces;
    var text := Before(line, '\0');
    BeforeHasNone(line, '\0');
    CutHasNoBreak(text);
    var l := Before(Before(text, '\r'), '\n');
    PartsHaveNoBreak(l);
    if FindEquals(l).Some? {
      var p := FindEquals(l).value;
      PartsHaveNoBreak(l[..p]);
      PartsHaveNoBreak(CutSpaces(l[..p]));
      if ReadValue(l[p + 2..]).Some? { ValueHasNoBreak(l[p + 2..]); }
    }
  }

  // ----------------------------------------------------------------------- whole lines, exactly

  lemma OptionTextIs(o: OptionState)
    ensures match TextOf(o)
            case None => OptionText(o) == Escape(o.name) + o.name
            case Some(t) => OptionText(o) == ValueLine(o.name, Quoted(o.spec, t))
  {
    if o.value.Some? {
      var q := Quoted(o.spec, TextOf(o).value);
      assert Escape(o.name) + o.name + " = " + q == Escape(o.name) + o.name + (" = " + q);
    }
  }

  lemma QuotedHasNoBreak(spec: Spec, text: string)
    requires NoBreak(text)
    ensures NoBreak(Quoted(spec, text))
  {}

  /** The line printed for an option, whatever its type, is read as that name and the text of that
      value exactly when the line can keep both. */
  lemma OptionLineReadsIff(o: OptionState)
    requires NoBreak(o.name) && (o.value.Some? ==> NoBreak(TextOf(o).value))
    ensures NoBreak(OptionText(o))
    ensures ParseLine(OptionText(o) + "\n") == Setting(o.name, TextOf(o)) <==> LineKept(o)
  {
    hide ParseLine, ValueText, Quoted, NoBreak, OptionText, KeptBeforeValue, KeptAlone, PlainText, ReadValue;
    OptionTextIs(o);
    match TextOf(o)
    case None =>
      NoBreakEscaped(o.name);
      NameLineIff(o.name);
    case Some(t) =>
      var q := Quoted(o.spec, t);
      QuotedHasNoBreak(o.spec, t);
      ValueLineHasNoBreak(o.name, q);
      ValueLineIff(o.name, q, t);
      QuotedReadsIff(o.spec, t);
  }

  lemma NoBreakEscaped(name: string)
    requires NoBreak(name)
    ensures NoBreak(Escape(name) + name)
  {}

  lemma QuotedReadsIff(spec: Spec, t: string)
    requires NoBreak(t)
    ensures ReadValue(" " + Quoted(spec, t)) == Some(t) <==> TextKept(spec, t)
  {
    if spec.kind.Str? { ReadQuoted(t); } else { ReadPlainIff(t); }
  }

  /** What the reader takes from a file at the line that was printed for an option, if the buffer
      holds that line: this name with the text of this value if and only if the line can keep
      them. */
  lemma OptionReadsIff(o: OptionState, rest: string)
    requires |OptionText(o)| < LINE_MAX
    ensures FirstRead(OptionText(o) + ("\n" + rest)) == Setting(o.name, TextOf(o)) <==> LineKept(o)
  {
    hide ParseLine, ValueText, OptionText, FirstLine, Before;
    if NoBreak(o.name) && (o.value.Some? ==> NoBreak(TextOf(o).value)) {
      OptionLineReadsIff(o);
      FirstReadIs(OptionText(o), rest);
    } else if FirstRead(OptionText(o) + ("\n" + rest)).Setting? {
      var text := OptionText(o) + ("\n" + rest);
      ReadHasNoBreak(text[..FirstLine(text, LINE_MAX)]);
    }
  }

  /** For a string option: its name must be one that the reader keeps, and its value must have no
      line break. */
  lemma StringReadsIff(name: string, spec: Spec, s: string, loaded: bool, rest: string)
    requires spec.kind.Str?
    requires |OptionText(OptionState(name, spec, Some(Text(s)), loaded))| < LINE_MAX
    ensures FirstRead(OptionText(OptionState(name, spec, Some(Text(s)), loaded)) + ("\n" + rest))
            == Setting(name, Some(s))
            <==> KeptBeforeValue(name) && NoBreak(s)
  {
    hide FirstRead, OptionText, KeptBeforeValue, NoBreak;
    OptionReadsIff(OptionState(name, spec, Some(Text(s)), loaded), rest);
  }

  // ----------------------------------------------------------------------------- section headers

  /** At most the last character is an end of line. */
  predicate OneLine(s: string) { s != "" ==> '\n' !in s[..|s| - 1] }

  lemma FirstLineShape(text: string, room: nat)
    ensures OneLine(text[..FirstLine(text, room)])
  {
    FirstLineBreak(text, room);
    var n := FirstLine(text, room);
    if n > 0 { assert text[..n][..n - 1] == text[..n - 1]; }
  }

  lemma {:induction false} FirstLineBreak(text: string, room: nat)
    ensures var n := FirstLine(text, room); n > 0 ==> '\n' !in text[..n - 1]
  {
    if text != "" && room > 0 && text[0] != '\n' {
      FirstLineBreak(text[1..], room - 1);
      var n := FirstLine(text, room);
      if n > 1 { assert text[..n - 1] == [text[0]] + text[1..][..n - 2]; }
    }
  }

  lemma {:induction false} BeforeStops(s: string, c: char)
    requires c in s
    ensures |Before(s, c)| < |s| && Before(s, c) == s[..|Before(s, c)|]
  {
    if s[0] != c {
      BeforeStops(s[1..], c);
      assert s[..|Before(s, c)|] == [s[0]] + s[1..][..|Before(s, c)| - 1];
    }
  }

  lemma NameBetween(t: string, c: char)
    requires t != "" && OneLine(t) && '\0' !in t && c in t[1..]
    ensures '\n' !in Before(t[1..], c) && '\0' !in Before(t[1..], c)
  {
    hide Before;
    var name := Before(t[1..], c);
    BeforeStops(t[1..], c);
    forall i | 0 <= i < |name| ensures name[i] in t[..|t| - 1] && name[i] in t {
      assert name[i] == t[i + 1] == t[..|t| - 1][i + 1];
    }
  }

  lemma HeaderIs(text: string)
    requires ParseLine(text).Header? && ParseLine(text).section.Some?
    ensures var t := SkipSpaces(text);
            t != "" && t[0] == '[' && ']' in t[1..] && ParseLine(text).section.value == Before(t[1..], ']')
  {
    hide Before, ReadSetting;
    ReadSettingIsSetting(text);
    var t := SkipSpaces(text);
    assert t == [t[0]] + t[1..];
  }

  /** No name of a section has an end of line or a NUL. */
  lemma HeaderHasNoBreak(line: string)
    requires OneLine(line)
    requires ParseLine(Before(line, '\0')).Header? && ParseLine(Before(line, '\0')).section.Some?
    ensures var name := ParseLine(Before(line, '\0')).section.value; '\n' !in name && '\0' !in name
  {
    hide SkipSpaces, Before, ParseLine, OneLine;
    var text := Before(line, '\0');
    BeforeHasNone(line, '\0');
    BeforeKeepsShape(line);
    SkipSpacesShape(text);
    SkipSpacesIn(text, '\0');
    HeaderIs(text);
    NameBetween(SkipSpaces(text), ']');
  }

  lemma {:induction false} BeforeKeepsShape(line: string)
    requires OneLine(line)
    ensures OneLine(Before(line, '\0'))
  {
    if line != "" && line[0] != '\0' {
      var rest := line[1..];
      if rest != "" { assert rest[..|rest| - 1] == line[..|line| - 1][1..]; }
      BeforeKeepsShape(rest);
      var t := Before(rest, '\0');
      if t != "" {
        assert line[..|line| - 1][0] == line[0];
        assert ([line[0]] + t)[..|t|] == [line[0]] + t[..|t| - 1];
      }
    }
  }

  lemma {:induction false} SkipSpacesShape(s: string)
    requires OneLine(s)
    ensures OneLine(SkipSpaces(s))
  {
    if s != "" && s[0] == ' ' {
      if |s| > 1 { assert s[1..][..|s| - 2] == s[..|s| - 1][1..]; }
      SkipSpacesShape(s[1..]);
    }
  }

  lemma HeaderLineIff(name: string)
    ensures ParseLine(SectionText(name) + "\n") == Header(Some(name)) <==> ']' !in name && '=' !in name
  {
    hide Before, ReadSetting;
    var line := SectionText(name) + "\n";
    var body := line[1..];
    assert line[0] == '[' && body == name + ([']'] + "\n") && body[|name|] == ']' && line[|name| + 1] == ']';
    ReadSettingIsSetting(line);
    assert '=' in line <==> '=' in name by { assert line == "[" + name + "]\n"; }
    if ']' in name { BeforeHasNone(body, ']'); } else { BeforeNone(name, ']', "\n"); }
  }

  /** The line printed for a section is read as the header of that section if and only if its name
      has no ], no = and no line break. */
  lemma SectionReadsIff(name: string, rest: string)
    requires |SectionText(name)| < LINE_MAX
    ensures FirstRead(SectionText(name) + ("\n" + rest)) == Header(Some(name)) <==> SectionNameOk(name)
  {
    hide ParseLine, FirstLine, Before;
    var text := SectionText(name) + ("\n" + rest);
    if '\n' !in name && '\0' !in name {
      FirstReadIs(SectionText(name), rest);
      HeaderLineIff(name);
    } else if FirstRead(text) == Header(Some(name)) {
      var n := FirstLine(text, LINE_MAX);
      FirstLineShape(text, LINE_MAX);
      HeaderHasNoBreak(text[..n]);
    }
  }

  // ---------------------------------------------------------------------------------- witnesses

  /** A # behind a space is not escaped, and makes the line a comment. */
  lemma HiddenComment()
    ensures Escape(" #a") == "" && ParseLine(" #a = 1\n") == Ignored
    ensures KeptBeforeValue(" a") && !KeptBeforeValue(" #a") && !KeptBeforeValue("a ")
  {
    var line := " #a = 1\n";
    assert line[1..][0] == '#';
    assert " a"[1..] == "a" && FindEquals("a") == None;
    assert " #a"[1..] == "#a";
  }

  lemma QuoteIsValue(a: string)
    ensures SkipSpaces(" " + ("\"" + a)) == "\"" + a && StrCaseCmp("\"" + a, OPTION_NULL) != 0
    ensures ReadValue(" " + ("\"" + a)).Some?
    ensures NoBreak(a) ==> NoBreak("\"" + a)
  {
    assert (" " + ("\"" + a))[1..] == "\"" + a;
    assert FoldChar('"') == '"' && FoldChar('n') == 'n';
  }

  /** What is read for a value with a line break: what stands before it, after the quote. */
  lemma BreakCuts(name: string, spec: Spec, a: string, b: string, loaded: bool)
    requires spec.kind.Str? && KeptBeforeValue(name) && NoBreak(a) && |ValueLine(name, "\"" + a)| < LINE_MAX
    ensures var o := OptionState(name, spec, Some(Text(a + ("\n" + b))), loaded);
            FirstRead(OptionText(o) + "\n") == Setting(name, ReadValue(" " + ("\"" + a)))
  {
    hide ParseLine, FirstRead, ReadValue, Escape, OptionText, FindEquals, Hides;
    var o := OptionState(name, spec, Some(Text(a + ("\n" + b))), loaded);
    var q, rest := "\"" + a, b + "\"" + "\n";
    QuoteIsValue(a);
    OptionTextIs(o);
    CutHere(Escape(name) + name + " = ", a, b);
    assert OptionText(o) + "\n" == ValueLine(name, q) + ("\n" + rest) by {
      assert ValueLine(name, q) == Escape(name) + name + " = " + q;
      assert ValueLine(name, Quoted(spec, a + ("\n" + b)))
          == Escape(name) + name + " = " + ("\"" + (a + ("\n" + b)) + "\"");
    }
    ValueLineHasNoBreak(name, q);
    FirstReadIs(ValueLine(name, q), rest);
    ValueLineIff(name, q, ReadValue(" " + q).value);
  }

  lemma CutHere(e: string, a: string, b: string)
    ensures e + ("\"" + (a + ("\n" + b)) + "\"") + "\n" == e + ("\"" + a) + ("\n" + (b + "\"" + "\n"))
  {}

  /** So the value of two lines, a and b, is read back as a quote and an a. */
  lemma BreakCutsValue(spec: Spec)
    requires spec.kind.Str?
    ensures FirstRead(OptionText(OptionState("x", spec, Some(Text("a\nb")), true)) + "\n") == Setting("x", Some("\"a"))
  {
    hide FirstRead, OptionText;
    BreakCuts("x", spec, "a", "b", true);
    assert "a" + ("\n" + "b") == "a\nb";
    QuoteIsValue("a");
    assert "\"" + "a" == "\"a" && " " + ("\"" + "a") == " \"a";
  }
}
