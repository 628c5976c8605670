/**
 Options by name: full names, looking them up, and what renaming does to the options that
 inherit from another one by its name.  `O` stands for a pointer to an option.
 */
module ConfigLookup {
  import opened CString

  datatype Entry<O> = Entry(name: string, option: O)

  datatype SectionView<O> = SectionView(name: string, options: seq<Entry<O>>)

  datatype FileView<O> = FileView(name: string, sections: seq<SectionView<O>>)

  // ------------------------------------------------------------------------ names

  /** `config_file_option_full_name` */
  function FullName(file: string, section: string, name: string): string {
    file + ("." + (section + ("." + name)))
  }

  function FindDot(s: string): (r: Option<nat>)
    ensures r.Some? ==> r.value < |s|
  {
    if s == "" then None
    else if s[0] == '.' then Some(0)
    else match FindDot(s[1..])
      case None => None
      case Some(p) => Some(p + 1)
  }

  datatype Parts = Parts(file: string, section: string, name: string)

  /** A full name is cut at its first two dots; the rest may contain more. */
  function SplitName(text: string): Option<Parts> {
    match FindDot(text)
    case None => None
    case Some(p) =>
      match FindDot(text[p + 1..])
      case None => None
      case Some(q) => Some(Parts(text[..p], text[p + 1..][..q], text[p + 1..][q + 1..]))
  }

  lemma {:induction false} FindDotAfter(a: string, b: string)
    requires '.' !in a
    ensures FindDot(a + ("." + b)) == Some(|a|)
  {
    if a == "" {
      assert a + ("." + b) == "." + b;
    } else {
      assert (a + ("." + b))[1..] == a[1..] + ("." + b);
      FindDotAfter(a[1..], b);
    }
  }

  lemma {:induction false} FindDotIsFirst(s: string)
    ensures match FindDot(s) case None => '.' !in s case Some(p) => '.' !in s[..p]
  {
    if s != "" && s[0] != '.' {
      FindDotIsFirst(s[1..]);
      if FindDot(s[1..]).Some? { assert s[..FindDot(s).value] == [s[0]] + s[1..][..FindDot(s).value - 1]; }
    }
  }

  /** A full name is cut back into its parts exactly when file and section have no dot. */
  lemma SplitFullName(file: string, section: string, name: string)
    ensures SplitName(FullName(file, section, name)) == Some(Parts(file, section, name))
            <==> '.' !in file && '.' !in section
  {
    var text := FullName(file, section, name);
    if '.' !in file && '.' !in section {
      FindDotAfter(file, section + ("." + name));
      assert text[|file| + 1..] == section + ("." + name) && text[..|file|] == file;
      FindDotAfter(section, name);
      var rest := section + ("." + name);
      assert rest[..|section|] == section && rest[|section| + 1..] == name;
    } else if SplitName(text) == Some(Parts(file, section, name)) {
      FindDotIsFirst(text);
      FindDotIsFirst(text[FindDot(text).value + 1..]);
    }
  }

  // ---------------------------------------------------------------------- searching

  function EntryNames<O>(options: seq<Entry<O>>): seq<string> {
    seq(|options|, k requires 0 <= k < |options| => options[k].name)
  }

  function SectionNames<O>(sections: seq<SectionView<O>>): seq<string> {
    seq(|sections|, k requires 0 <= k < |sections| => sections[k].name)
  }

  function FileNames<O>(files: seq<FileView<O>>): seq<string> {
    seq(|files|, k requires 0 <= k < |files| => files[k].name)
  }

  function FindEntry<O>(options: seq<Entry<O>>, name: string): Option<O> {
    var k := IndexOf(EntryNames(options), name);
    if k < 0 then None else Some(options[k].option)
  }

  function FindSection<O>(sections: seq<SectionView<O>>, name: string): Option<SectionView<O>> {
    var k := IndexOf(SectionNames(sections), name);
    if k < 0 then None else Some(sections[k])
  }

  function FindFile<O>(files: seq<FileView<O>>, name: string): Option<FileView<O>> {
    var k := IndexOf(FileNames(files), name);
    if k < 0 then None else Some(files[k])
  }

  /** The section of that name in the file of that name. */
  function SectionOf<O>(files: seq<FileView<O>>, file: string, section: string): Option<SectionView<O>> {
    match FindFile(files, file)
    case None => None
    case Some(view) => FindSection(view.sections, section)
  }

  /** `config_file_search_with_string` */
  function Lookup<O>(files: seq<FileView<O>>, text: string): Option<O> {
    match SplitName(text)
    case None => None
    case Some(parts) =>
      match SectionOf(files, parts.file, parts.section)
      case None => None
      case Some(section) => FindEntry(section.options, parts.name)
  }

  // ------------------------------------------------------------------- well-formed

  predicate DistinctEntries<O>(options: seq<Entry<O>>) {
    forall j, k :: 0 <= j < k < |options| ==> StrCaseCmp(options[j].name, options[k].name) != 0
  }

  predicate DistinctSections<O>(sections: seq<SectionView<O>>) {
    forall j, k :: 0 <= j < k < |sections| ==> StrCaseCmp(sections[j].name, sections[k].name) != 0
  }

  predicate DistinctFiles<O>(files: seq<FileView<O>>) {
    forall j, k :: 0 <= j < k < |files| ==> StrCaseCmp(files[j].name, files[k].name) != 0
  }

  predicate SectionViewOk<O>(section: SectionView<O>) { '.' !in section.name && DistinctEntries(section.options) }

  predicate FileViewOk<O>(file: FileView<O>) {
    '.' !in file.name && DistinctSections(file.sections)
    && forall j :: 0 <= j < |file.sections| ==> SectionViewOk(file.sections[j])
  }

  predicate StoreOk<O>(files: seq<FileView<O>>) {
    DistinctFiles(files) && forall i :: 0 <= i < |files| ==> FileViewOk(files[i])
  }

  /** Equality up to case. */
  predicate Alike(a: string, b: string) { StrCaseCmp(a, b) == 0 }

  lemma AlikeIsEquivalence(a: string, b: string, c: string)
    ensures Alike(a, a) && (Alike(a, b) <==> Alike(b, a)) && (Alike(a, b) && Alike(b, c) ==> Alike(a, c))
    ensures Alike(a, b) ==> (Alike(a, c) <==> Alike(b, c))
  {
    StrCaseCmpPreorder(a, a, a); StrCaseCmpPreorder(a, b, c); StrCaseCmpPreorder(b, a, c);
    StrCaseCmpPreorder(a, c, b); StrCaseCmpPreorder(b, c, a);
  }

  /** A loop that stops at the first option of that name finds the option. */
  lemma FindEntryAt<O>(options: seq<Entry<O>>, name: string, k: nat)
    requires k <= |options| && forall i :: 0 <= i < k ==> !Alike(options[i].name, name)
    requires k < |options| ==> Alike(options[k].name, name)
    ensures FindEntry(options, name) == if k < |options| then Some(options[k].option) else None
  {
    hide StrCaseCmp;
    IndexOfUnique(EntryNames(options), name, k);
  }

  lemma FindSectionAt<O>(sections: seq<SectionView<O>>, name: string, k: nat)
    requires k <= |sections| && forall i :: 0 <= i < k ==> !Alike(sections[i].name, name)
    requires k < |sections| ==> Alike(sections[k].name, name)
    ensures FindSection(sections, name) == if k < |sections| then Some(sections[k]) else None
  {
    hide StrCaseCmp;
    IndexOfUnique(SectionNames(sections), name, k);
  }

  lemma FindFileAt<O>(files: seq<FileView<O>>, name: string, k: nat)
    requires k <= |files| && forall i :: 0 <= i < k ==> !Alike(files[i].name, name)
    requires k < |files| ==> Alike(files[k].name, name)
    ensures FindFile(files, name) == if k < |files| then Some(files[k]) else None
  {
    hide StrCaseCmp;
    IndexOfUnique(FileNames(files), name, k);
  }

  /** Among distinct names, any one found is the first. */
  lemma DistinctIsFirst(names: seq<string>, name: string, k: nat)
    requires forall i, j :: 0 <= i < j < |names| ==> StrCaseCmp(names[i], names[j]) != 0
    requires k < |names| && Alike(names[k], name)
    ensures IndexOf(names, name) == k
  {
    hide StrCaseCmp;
    forall i | 0 <= i < k ensures StrCaseCmp(names[i], name) != 0 {
      AlikeIsEquivalence(names[i], name, names[k]);
      AlikeIsEquivalence(name, names[k], names[i]);
    }
    IndexOfUnique(names, name, k);
  }

  lemma FindEntryIs<O>(options: seq<Entry<O>>, name: string, k: nat)
    requires DistinctEntries(options) && k < |options| && Alike(options[k].name, name)
    ensures FindEntry(options, name) == Some(options[k].option)
  {
    hide StrCaseCmp;
    DistinctIsFirst(EntryNames(options), name, k);
  }

  lemma FindEntryNone<O>(options: seq<Entry<O>>, name: string)
    ensures FindEntry(options, name) == None <==> forall k :: 0 <= k < |options| ==> !Alike(options[k].name, name)
  {
    hide StrCaseCmp;
    var names := EntryNames(options);
    IndexOfIsFirst(names, name);
    assert forall k :: 0 <= k < |options| ==> names[k] == options[k].name;
  }

  lemma FindSectionIs<O>(sections: seq<SectionView<O>>, name: string, k: nat)
    requires DistinctSections(sections) && k < |sections| && Alike(sections[k].name, name)
    ensures FindSection(sections, name) == Some(sections[k])
  {
    hide StrCaseCmp;
    DistinctIsFirst(SectionNames(sections), name, k);
  }

  lemma FindFileIs<O>(files: seq<FileView<O>>, name: string, k: nat)
    requires DistinctFiles(files) && k < |files| && Alike(files[k].name, name)
    ensures FindFile(files, name) == Some(files[k])
  {
    hide StrCaseCmp;
    DistinctIsFirst(FileNames(files), name, k);
  }

  /** One step of the search. */
  lemma FindEntryStep<O>(options: seq<Entry<O>>, name: string)
    requires options != []
    ensures FindEntry(options, name)
            == if Alike(options[0].name, name) then Some(options[0].option) else FindEntry(options[1..], name)
  {
    hide StrCaseCmp;
    assert EntryNames(options)[1..] == EntryNames(options[1..]);
  }

  /** The option at `k` of section `j` of file `i`. */
  ghost predicate At<O>(files: seq<FileView<O>>, i: nat, j: nat, k: nat) {
    i < |files| && j < |files[i].sections| && k < |files[i].sections[j].options|
  }

  function NameAt<O>(files: seq<FileView<O>>, i: nat, j: nat, k: nat): string
    requires At(files, i, j, k)
  {
    FullName(files[i].name, files[i].sections[j].name, files[i].sections[j].options[k].name)
  }

  /** Looking up the full name of an option finds that option. */
  lemma LookupFullName<O>(files: seq<FileView<O>>, i: nat, j: nat, k: nat)
    requires StoreOk(files) && At(files, i, j, k)
    ensures Lookup(files, NameAt(files, i, j, k)) == Some(files[i].sections[j].options[k].option)
  {
    var file := files[i];
    assert FileViewOk(file);
    var section := file.sections[j];
    assert SectionViewOk(section);
    SplitFullName(file.name, section.name, section.options[k].name);
    AlikeIsEquivalence(file.name, file.name, file.name);
    AlikeIsEquivalence(section.name, section.name, section.name);
    AlikeIsEquivalence(section.options[k].name, section.options[k].name, section.options[k].name);
    FindFileIs(files, file.name, i);
    FindSectionIs(file.sections, section.name, j);
    FindEntryIs(section.options, section.options[k].name, k);
  }

  // ------------------------------------------------------------------------ renaming

  /** Insertion that keeps the options sorted by name. */
  function InsertEntry<O>(options: seq<Entry<O>>, e: Entry<O>): seq<Entry<O>> {
    if options == [] || StrCaseCmp(e.name, options[0].name) < 0 then [e] + options
    else [options[0]] + InsertEntry(options[1..], e)
  }

  function Removed<O>(options: seq<Entry<O>>, k: nat): seq<Entry<O>>
    requires k < |options|
  {
    options[..k] + options[k + 1..]
  }

  function RenameEntry<O>(options: seq<Entry<O>>, k: nat, name: string): seq<Entry<O>>
    requires k < |options|
  {
    InsertEntry(Removed(options, k), Entry(name, options[k].option))
  }

  function Renamed<O>(files: seq<FileView<O>>, i: nat, j: nat, k: nat, name: string): seq<FileView<O>>
    requires At(files, i, j, k)
  {
    var section := files[i].sections[j];
    var section' := section.(options := RenameEntry(section.options, k, name));
    files[i := files[i].(sections := files[i].sections[j := section'])]
  }

  /** Names rise strictly, so no two of them are equal without case. */
  predicate SortedEntries<O>(options: seq<Entry<O>>) {
    forall j, k :: 0 <= j < k < |options| ==> StrCaseCmp(options[j].name, options[k].name) < 0
  }

  /** `k` is the position of the first name that the given one precedes. */
  predicate PlaceOf<O>(options: seq<Entry<O>>, name: string, k: nat) {
    && k <= |options| && (forall i :: 0 <= i < k ==> StrCaseCmp(name, options[i].name) >= 0)
    && (k < |options| ==> StrCaseCmp(name, options[k].name) < 0)
  }

  lemma {:induction false} InsertEntryAt<O>(options: seq<Entry<O>>, e: Entry<O>, k: nat)
    requires PlaceOf(options, e.name, k)
    ensures InsertEntry(options, e) == options[..k] + [e] + options[k..]
  {
    hide StrCaseCmp;
    if k == 0 {
      assert options[..0] + [e] + options[0..] == [e] + options;
    } else {
      var rest := options[1..];
      assert forall i :: 0 <= i < |rest| ==> rest[i] == options[i + 1];
      InsertEntryAt(rest, e, k - 1);
      Shifted(options, e, k);
    }
  }

  lemma Shifted<T>(s: seq<T>, e: T, k: nat)
    requires 0 < k <= |s|
    ensures [s[0]] + (s[1..][..k - 1] + [e] + s[1..][k - 1..]) == s[..k] + [e] + s[k..]
  {
    assert s[..k] == [s[0]] + s[1..][..k - 1] && s[k..] == s[1..][k - 1..];
  }

  /** Inserting a new name and taking a name away keep the order. */
  lemma {:induction false} InsertKeepsSorted<O>(options: seq<Entry<O>>, e: Entry<O>)
    requires SortedEntries(options) && FindEntry(options, e.name) == None
    ensures SortedEntries(InsertEntry(options, e))
    ensures forall k :: 0 <= k < |InsertEntry(options, e)| ==>
              InsertEntry(options, e)[k] == e || InsertEntry(options, e)[k] in options
  {
    var r := InsertEntry(options, e);
    if options == [] {
    } else if StrCaseCmp(e.name, options[0].name) < 0 {
      forall k | 0 < k < |r| ensures StrCaseCmp(e.name, r[k].name) < 0 {
        assert r[k] == options[k - 1];
        if k > 1 { StrCaseCmpPreorder(e.name, options[0].name, options[k - 1].name); }
      }
    } else {
      FindEntryStep(options, e.name);
      InsertKeepsSorted(options[1..], e);
      StrCaseCmpPreorder(e.name, options[0].name, e.name);
      var t := InsertEntry(options[1..], e);
      forall k | 0 <= k < |t| ensures StrCaseCmp(options[0].name, t[k].name) < 0 {
        if t[k] != e {
          var m :| 0 <= m < |options[1..]| && options[1..][m] == t[k];
        }
      }
    }
  }

  lemma SortedIsDistinct<O>(options: seq<Entry<O>>, k: nat)
    requires SortedEntries(options)
    ensures DistinctEntries(options) && (k < |options| ==> SortedEntries(Removed(options, k)))
  {}

  lemma RenameKeepsSorted<O>(options: seq<Entry<O>>, k: nat, name: string)
    requires SortedEntries(options) && k < |options| && FindEntry(options, name) == None
    ensures SortedEntries(RenameEntry(options, k, name))
  {
    SortedIsDistinct(options, k);
    FindRemoved(options, k, name);
    InsertKeepsSorted(Removed(options, k), Entry(name, options[k].option));
  }

  /** What happens to the parent of any option. */
  function RenamedParent(parent: string, oldName: string, newName: string): string {
    if parent == oldName then newName else parent
  }

  lemma {:induction false} FindInserted<O>(options: seq<Entry<O>>, e: Entry<O>, name: string)
    requires forall k :: 0 <= k < |options| ==> !Alike(options[k].name, e.name)
    ensures FindEntry(InsertEntry(options, e), name)
            == if Alike(e.name, name) then Some(e.option) else FindEntry(options, name)
  {
    hide StrCaseCmp, FindEntry;
    FindEntryStep(InsertEntry(options, e), name);
    if options == [] || StrCaseCmp(e.name, options[0].name) < 0 {
      assert ([e] + options)[1..] == options;
    } else {
      var r := InsertEntry(options[1..], e);
      assert ([options[0]] + r)[1..] == r;
      FindInserted(options[1..], e, name);
      FindEntryStep(options, name);
      AlikeIsEquivalence(options[0].name, name, e.name);
      AlikeIsEquivalence(name, e.name, name);
    }
  }

  lemma {:induction false} FindRemoved<O>(options: seq<Entry<O>>, k: nat, name: string)
    requires DistinctEntries(options) && k < |options|
    ensures FindEntry(Removed(options, k), name)
            == if Alike(options[k].name, name) then None else FindEntry(options, name)
  {
    hide StrCaseCmp, FindEntry;
    FindEntryStep(options, name);
    if k == 0 {
      assert Removed(options, 0) == options[1..];
      FindEntryNone(options[1..], name);
      forall m | 0 < m < |options| ensures Alike(options[0].name, name) ==> !Alike(options[m].name, name) {
        AlikeIsEquivalence(options[0].name, name, options[m].name);
        AlikeIsEquivalence(name, options[m].name, name);
      }
    } else {
      FindRemoved(options[1..], k - 1, name);
      var r := Removed(options, k);
      assert r[0] == options[0] && r[1..] == Removed(options[1..], k - 1);
      FindEntryStep(r, name);
      AlikeIsEquivalence(options[0].name, name, options[k].name);
      AlikeIsEquivalence(name, options[k].name, name);
    }
  }

  lemma FindRenamed<O>(options: seq<Entry<O>>, k: nat, newName: string, name: string)
    requires DistinctEntries(options) && k < |options| && FindEntry(options, newName) == None
    ensures FindEntry(RenameEntry(options, k, newName), name)
            == if Alike(newName, name) then Some(options[k].option)
               else if Alike(options[k].name, name) then None
               else FindEntry(options, name)
  {
    FindEntryNone(options, newName);
    FindRemoved(options, k, name);
    var rest := Removed(options, k);
    forall m | 0 <= m < |rest| ensures !Alike(rest[m].name, newName) {
      assert rest[m] == options[if m < k then m else m + 1];
    }
    FindInserted(rest, Entry(newName, options[k].option), name);
  }

  /** The text is a full name, up to case, in that file and section. */
  predicate Refers(text: string, file: string, section: string, name: string) {
    match SplitName(text)
    case None => false
    case Some(Parts(f, s, n)) => Alike(file, f) && Alike(section, s) && Alike(name, n)
  }

  lemma FindSectionReplaced<O>(sections: seq<SectionView<O>>, j: nat, section: SectionView<O>, name: string)
    requires DistinctSections(sections) && j < |sections| && section.name == sections[j].name
    ensures FindSection(sections[j := section], name)
            == if Alike(section.name, name) then Some(section) else FindSection(sections, name)
  {
    hide StrCaseCmp;
    var names := SectionNames(sections);
    assert SectionNames(sections[j := section]) == names;
    IndexOfIsFirst(names, name);
    if Alike(section.name, name) { DistinctIsFirst(names, name, j); }
  }

  lemma FindFileReplaced<O>(files: seq<FileView<O>>, i: nat, file: FileView<O>, name: string)
    requires DistinctFiles(files) && i < |files| && file.name == files[i].name
    ensures FindFile(files[i := file], name) == if Alike(file.name, name) then Some(file) else FindFile(files, name)
  {
    hide StrCaseCmp;
    var names := FileNames(files);
    assert FileNames(files[i := file]) == names;
    IndexOfIsFirst(names, name);
    if Alike(file.name, name) { DistinctIsFirst(names, name, i); }
  }

  /** Every lookup after a rename: the new name finds the option, the old one nothing, and all
      other texts find what they found. */
  lemma LookupAfterRename<O>(files: seq<FileView<O>>, i: nat, j: nat, k: nat, newName: string, text: string)
    requires StoreOk(files) && At(files, i, j, k) && FindEntry(files[i].sections[j].options, newName) == None
    ensures var section := files[i].sections[j];
            var (f, s, e) := (files[i].name, section.name, section.options[k]);
            Lookup(Renamed(files, i, j, k, newName), text)
            == if Refers(text, f, s, newName) then Some(e.option)
               else if Refers(text, f, s, e.name) then None
               else Lookup(files, text)
  {
    match SplitName(text)
    case None =>
    case Some(Parts(f, s, n)) =>
      var file := files[i];
      assert FileViewOk(file);
      var section := file.sections[j];
      assert SectionViewOk(section);
      var section' := section.(options := RenameEntry(section.options, k, newName));
      var file' := file.(sections := file.sections[j := section']);
      FindFileReplaced(files, i, file', f);
      if Alike(file.name, f) {
        FindFileIs(files, f, i);
        FindSectionReplaced(file.sections, j, section', s);
        if Alike(section.name, s) {
          FindSectionIs(file.sections, s, j);
          FindRenamed(section.options, k, newName, n);
        }
      }
  }

  /** Inheritance after a rename: the parent of an option resolves to what it resolved to before,
      the same option or none, exactly when it is the full name of the renamed option to the
      letter, or does not refer to its old or new name at all. */
  lemma ParentAfterRename<O>(files: seq<FileView<O>>, i: nat, j: nat, k: nat, newName: string, parent: string)
    requires StoreOk(files) && At(files, i, j, k) && FindEntry(files[i].sections[j].options, newName) == None
    ensures var (f, s, n) := (files[i].name, files[i].sections[j].name, files[i].sections[j].options[k].name);
            var (oldFull, newFull) := (FullName(f, s, n), FullName(f, s, newName));
            Lookup(Renamed(files, i, j, k, newName), RenamedParent(parent, oldFull, newFull)) == Lookup(files, parent)
            <==> parent == oldFull || !(Refers(parent, f, s, n) || Refers(parent, f, s, newName))
  {
    var (f, s, e) := (files[i].name, files[i].sections[j].name, files[i].sections[j].options[k]);
    assert FileViewOk(files[i]);
    assert SectionViewOk(files[i].sections[j]);
    if parent == FullName(f, s, e.name) {
      LookupFullName(files, i, j, k);
      SplitFullName(f, s, newName);
      AlikeIsEquivalence(f, f, f); AlikeIsEquivalence(s, s, s); AlikeIsEquivalence(newName, newName, newName);
      LookupAfterRename(files, i, j, k, newName, FullName(f, s, newName));
    } else {
      LookupAfterRename(files, i, j, k, newName, parent);
      if Refers(parent, f, s, e.name) || Refers(parent, f, s, newName) {
        var Parts(pf, ps, pn) := SplitName(parent).value;
        FindFileIs(files, pf, i);
        FindSectionIs(files[i].sections, ps, j);
        if Refers(parent, f, s, e.name) { FindEntryIs(files[i].sections[j].options, pn, k); }
        FindRenamed(files[i].sections[j].options, k, newName, pn);
        NotBoth(files[i].sections[j].options, k, newName, pn);
      }
    }
  }

  lemma NotBoth<O>(options: seq<Entry<O>>, k: nat, newName: string, n: string)
    requires DistinctEntries(options) && k < |options| && FindEntry(options, newName) == None
    ensures Alike(newName, n) ==> FindEntry(options, n) == None
  {
    FindEntryNone(options, newName);
    FindEntryNone(options, n);
    forall m | 0 <= m < |options| && Alike(newName, n) ensures !Alike(options[m].name, n) {
      AlikeIsEquivalence(newName, n, options[m].name);
      AlikeIsEquivalence(n, options[m].name, newName);
      AlikeIsEquivalence(options[m].name, n, newName);
    }
  }

  /** Every option that inherits from a live option by its full name still does after a rename,
      from the same option, whichever option was renamed. */
  lemma InheritanceSurvivesRename<O>(files: seq<FileView<O>>, i: nat, j: nat, k: nat, newName: string,
                                     i2: nat, j2: nat, k2: nat)
    requires StoreOk(files) && At(files, i, j, k) && FindEntry(files[i].sections[j].options, newName) == None
    requires At(files, i2, j2, k2)
    ensures var section := files[i].sections[j];
            var oldFull := FullName(files[i].name, section.name, section.options[k].name);
            var newFull := FullName(files[i].name, section.name, newName);
            Lookup(Renamed(files, i, j, k, newName), RenamedParent(NameAt(files, i2, j2, k2), oldFull, newFull))
            == Some(files[i2].sections[j2].options[k2].option)
  {
    LookupFullName(files, i2, j2, k2);
    ParentAfterRename(files, i, j, k, newName, NameAt(files, i2, j2, k2));
    assert FileViewOk(files[i2]) && FileViewOk(files[i]);
    assert SectionViewOk(files[i2].sections[j2]) && SectionViewOk(files[i].sections[j]);
    var (f, s, n) := (files[i2].name, files[i2].sections[j2].name, files[i2].sections[j2].options[k2].name);
    SplitFullName(f, s, n);
    AlikeIsEquivalence(files[i].name, f, f);
    AlikeIsEquivalence(files[i].sections[j].name, s, s);
    if i == i2 && j == j2 {
      FindEntryNone(files[i].sections[j].options, newName);
      AlikeIsEquivalence(newName, n, n);
      AlikeIsEquivalence(files[i].sections[j].options[k].name, n, n);
    }
  }

  function OneOption<O>(option: O): seq<FileView<O>> { [FileView("f", [SectionView("s", [Entry("a", option)])])] }

  lemma OneOptionIsOk<O>(option: O)
    ensures StoreOk(OneOption(option))
  {
    var files := OneOption(option);
    assert SectionViewOk(files[0].sections[0]);
    assert FileViewOk(files[0]);
  }

  /** A parent name in another case finds its option, and loses it when that is renamed. */
  lemma CaseLosesParent<O>(option: O)
    ensures var (files, parent) := (OneOption(option), FullName("F", "s", "a"));
            && StoreOk(files) && Lookup(files, parent) == Some(option)
            && RenamedParent(parent, NameAt(files, 0, 0, 0), FullName("f", "s", "b")) == parent
            && Lookup(Renamed(files, 0, 0, 0, "b"), parent) == None
  {
    hide Renamed, StoreOk, SplitName;
    var files := OneOption(option);
    OneOptionIsOk(option);
    SplitFullName("F", "s", "a");
    assert FullName("F", "s", "a")[0] == 'F' && NameAt(files, 0, 0, 0)[0] == 'f';
    assert Alike("f", "F") && Alike("s", "s") && Alike("a", "a") && !Alike("a", "b") && !Alike("b", "a");
    LookupAfterRename(files, 0, 0, 0, "b", FullName("F", "s", "a"));
  }

  // ---------------------------------------------------------------------- whole runs

  /** The text is the full name, to the letter, of the option. */
  ghost predicate Names<O>(files: seq<FileView<O>>, text: string, option: O) {
    exists i: nat, j: nat, k: nat :: At(files, i, j, k) && NameAt(files, i, j, k) == text
                      && files[i].sections[j].options[k].option == option
  }

  lemma {:induction false} InsertKeepsDistinct<O>(options: seq<Entry<O>>, e: Entry<O>)
    requires DistinctEntries(options) && forall k :: 0 <= k < |options| ==> !Alike(options[k].name, e.name)
    ensures DistinctEntries(InsertEntry(options, e))
    ensures forall x :: x in InsertEntry(options, e) <==> x == e || x in options
  {
    hide StrCaseCmp;
    if options != [] && StrCaseCmp(e.name, options[0].name) >= 0 {
      var (rest, t) := (options[1..], InsertEntry(options[1..], e));
      InsertKeepsDistinct(rest, e);
      forall k | 0 <= k < |t| ensures StrCaseCmp(options[0].name, t[k].name) != 0 {
        assert t[k] in t;
        if t[k] != e {
          var m :| 0 <= m < |rest| && rest[m] == t[k];
          assert options[m + 1] == t[k];
        }
      }
      assert forall x :: x in options <==> x == options[0] || x in rest;
    } else {
      forall k | 0 <= k < |options| ensures StrCaseCmp(e.name, options[k].name) != 0 {
        AlikeIsEquivalence(e.name, options[k].name, e.name);
      }
    }
  }

  lemma RenameKeepsEntries<O>(options: seq<Entry<O>>, k: nat, newName: string)
    requires DistinctEntries(options) && k < |options| && FindEntry(options, newName) == None
    ensures DistinctEntries(RenameEntry(options, k, newName))
    ensures Entry(newName, options[k].option) in RenameEntry(options, k, newName)
    ensures forall m :: 0 <= m < |options| && m != k ==> options[m] in RenameEntry(options, k, newName)
  {
    hide InsertEntry, StrCaseCmp;
    FindEntryNone(options, newName);
    var rest := Removed(options, k);
    assert forall m :: 0 <= m < |rest| ==> rest[m] == options[if m < k then m else m + 1];
    InsertKeepsDistinct(rest, Entry(newName, options[k].option));
    forall m | 0 <= m < |options| && m != k ensures options[m] in rest {
      assert rest[if m < k then m else m - 1] == options[m];
    }
  }

  /** Lookups stay well defined. */
  lemma RenamedIsOk<O>(files: seq<FileView<O>>, i: nat, j: nat, k: nat, newName: string)
    requires StoreOk(files) && At(files, i, j, k) && FindEntry(files[i].sections[j].options, newName) == None
    ensures StoreOk(Renamed(files, i, j, k, newName))
  {
    hide RenameEntry, StrCaseCmp;
    var after := Renamed(files, i, j, k, newName);
    assert FileViewOk(files[i]) && SectionViewOk(files[i].sections[j]);
    RenameKeepsEntries(files[i].sections[j].options, k, newName);
    assert FileViewOk(after[i]) by {
      forall m | 0 <= m < |after[i].sections| ensures SectionViewOk(after[i].sections[m]) {
        assert SectionViewOk(files[i].sections[m]);
      }
    }
    forall m | 0 <= m < |after| ensures FileViewOk(after[m]) { assert FileViewOk(files[m]); }
  }

  /** A full name follows its option through a rename. */
  lemma RenamedIsNamed<O>(files: seq<FileView<O>>, i: nat, j: nat, k: nat, newName: string, parent: string, option: O)
    requires StoreOk(files) && At(files, i, j, k) && FindEntry(files[i].sections[j].options, newName) == None
    requires Names(files, parent, option)
    ensures var (f, s) := (files[i].name, files[i].sections[j].name);
            Names(Renamed(files, i, j, k, newName),
                  RenamedParent(parent, NameAt(files, i, j, k), FullName(f, s, newName)), option)
  {
    hide RenameEntry, StrCaseCmp, FullName;
    var after := Renamed(files, i, j, k, newName);
    assert FileViewOk(files[i]) && SectionViewOk(files[i].sections[j]);
    RenameKeepsEntries(files[i].sections[j].options, k, newName);
    var i2: nat, j2: nat, k2: nat :| At(files, i2, j2, k2) && NameAt(files, i2, j2, k2) == parent
                      && files[i2].sections[j2].options[k2].option == option;
    var e := files[i2].sections[j2].options[k2];
    var e' := if parent == NameAt(files, i, j, k) then Entry(newName, e.option) else e;
    if parent == NameAt(files, i, j, k) { SameName(files, i, j, k, i2, j2, k2); }
    assert e' in after[i2].sections[j2].options;
    var k3 :| 0 <= k3 < |after[i2].sections[j2].options| && after[i2].sections[j2].options[k3] == e';
    assert At(after, i2, j2, k3);
  }

  /** A full name belongs to one option. */
  lemma SameName<O>(files: seq<FileView<O>>, i: nat, j: nat, k: nat, i2: nat, j2: nat, k2: nat)
    requires StoreOk(files) && At(files, i, j, k) && At(files, i2, j2, k2)
    requires NameAt(files, i, j, k) == NameAt(files, i2, j2, k2)
    ensures i == i2 && j == j2 && k == k2
  {
    hide StrCaseCmp, SplitName;
    assert FileViewOk(files[i]) && FileViewOk(files[i2]);
    assert SectionViewOk(files[i].sections[j]) && SectionViewOk(files[i2].sections[j2]);
    var (a, b) := (files[i], files[i2]);
    var (s, t) := (a.sections[j], b.sections[j2]);
    SplitFullName(a.name, s.name, s.options[k].name);
    SplitFullName(b.name, t.name, t.options[k2].name);
    AlikeIsEquivalence(a.name, a.name, a.name);
    AlikeIsEquivalence(s.name, s.name, s.name);
    AlikeIsEquivalence(s.options[k].name, s.options[k].name, s.options[k].name);
  }

  /** What a rename does to the files and to one parent name. */
  datatype Heirs<O> = Heirs(files: seq<FileView<O>>, parent: string)

  datatype Renaming = Renaming(file: nat, section: nat, at: nat, name: string)

  /** An empty name, a name in use and an option that does not exist change nothing. */
  ghost function AfterRenaming<O>(h: Heirs<O>, r: Renaming): Heirs<O> {
    if !At(h.files, r.file, r.section, r.at) || r.name == ""
       || FindEntry(h.files[r.file].sections[r.section].options, r.name).Some? then h
    else
      var (f, s) := (h.files[r.file].name, h.files[r.file].sections[r.section].name);
      Heirs(Renamed(h.files, r.file, r.section, r.at, r.name),
            RenamedParent(h.parent, NameAt(h.files, r.file, r.section, r.at), FullName(f, s, r.name)))
  }

  ghost function AfterRenamings<O>(h: Heirs<O>, rs: seq<Renaming>): Heirs<O> {
    if rs == [] then h else AfterRenaming(AfterRenamings(h, rs[..|rs| - 1]), rs[|rs| - 1])
  }

  /** Over any run of renames, of any options in any files, an option that inherits from a live
      one by its full name goes on to inherit from that same option, by the full name that it
      then has. */
  lemma {:induction false} InheritanceSurvivesRenames<O>(h: Heirs<O>, rs: seq<Renaming>, option: O)
    requires StoreOk(h.files) && Names(h.files, h.parent, option)
    ensures var h' := AfterRenamings(h, rs);
            StoreOk(h'.files) && Names(h'.files, h'.parent, option) && Lookup(h'.files, h'.parent) == Some(option)
  {
    hide StrCaseCmp, Renamed, RenamedParent, FullName, FindEntry, StoreOk, Lookup;
    var h' := AfterRenamings(h, rs);
    if rs != [] {
      var (before, r) := (AfterRenamings(h, rs[..|rs| - 1]), rs[|rs| - 1]);
      InheritanceSurvivesRenames(h, rs[..|rs| - 1], option);
      if At(before.files, r.file, r.section, r.at)
         && FindEntry(before.files[r.file].sections[r.section].options, r.name).None? {
        RenamedIsOk(before.files, r.file, r.section, r.at, r.name);
        RenamedIsNamed(before.files, r.file, r.section, r.at, r.name, before.parent, option);
      }
    }
    NamesResolve(h'.files, h'.parent, option);
  }

  lemma NamesResolve<O>(files: seq<FileView<O>>, text: string, option: O)
    requires StoreOk(files) && Names(files, text, option)
    ensures Lookup(files, text) == Some(option)
  {
    var i: nat, j: nat, k: nat :| At(files, i, j, k) && NameAt(files, i, j, k) == text
                   && files[i].sections[j].options[k].option == option;
    LookupFullName(files, i, j, k);
  }

  /** What may happen to the options of a section. */
  datatype Command<O> = Create(name: string, option: O) | Rename(at: nat, name: string) | Free(at: nat)

  /** The options of the section, and the books: all options ever created, and all freed. */
  datatype History<O> = History(entries: seq<Entry<O>>, created: seq<O>, freed: seq<O>)

  /** A name in use is refused, for a new option as for a rename, and so is the empty name for
      a rename. */
  function After<O>(h: History<O>, cmd: Command<O>): History<O> {
    match cmd
    case Create(name, option) =>
      if FindEntry(h.entries, name).Some? then h
      else h.(entries := InsertEntry(h.entries, Entry(name, option)), created := h.created + [option])
    case Rename(at, name) =>
      if at >= |h.entries| || name == "" || FindEntry(h.entries, name).Some? then h
      else h.(entries := RenameEntry(h.entries, at, name))
    case Free(at) =>
      if at >= |h.entries| then h
      else h.(entries := Removed(h.entries, at), freed := h.freed + [h.entries[at].option])
  }

  function RunOf<O>(cmds: seq<Command<O>>): History<O> {
    if cmds == [] then History([], [], []) else After(RunOf(cmds[..|cmds| - 1]), cmds[|cmds| - 1])
  }

  ghost function OptionsIn<O>(options: seq<Entry<O>>): multiset<O> {
    if options == [] then multiset{} else multiset{options[0].option} + OptionsIn(options[1..])
  }

  lemma {:induction false} OptionsInInserted<O>(options: seq<Entry<O>>, e: Entry<O>)
    ensures OptionsIn(InsertEntry(options, e)) == OptionsIn(options) + multiset{e.option}
  {
    if options == [] || StrCaseCmp(e.name, options[0].name) < 0 {
      assert ([e] + options)[1..] == options;
    } else {
      var r := InsertEntry(options[1..], e);
      OptionsInInserted(options[1..], e);
      assert ([options[0]] + r)[1..] == r;
    }
  }

  lemma {:induction false} OptionsInRemoved<O>(options: seq<Entry<O>>, k: nat)
    requires k < |options|
    ensures OptionsIn(options) == OptionsIn(Removed(options, k)) + multiset{options[k].option}
  {
    if k == 0 {
      assert Removed(options, k) == options[1..];
    } else {
      var r := Removed(options, k);
      assert r[0] == options[0] && r[1..] == Removed(options[1..], k - 1);
      OptionsInRemoved(options[1..], k - 1);
    }
  }

  /** The options are in order, and are those created and not freed. */
  ghost predicate Kept<O>(h: History<O>) {
    SortedEntries(h.entries) && multiset(h.created) == OptionsIn(h.entries) + multiset(h.freed)
  }

  lemma StepKeeps<O>(h: History<O>, cmd: Command<O>)
    requires Kept(h)
    ensures Kept(After(h, cmd))
  {
    hide StrCaseCmp, FindEntry, InsertEntry, OptionsIn;
    match cmd
    case Create(name, option) =>
      if FindEntry(h.entries, name).None? {
        InsertKeepsSorted(h.entries, Entry(name, option));
        OptionsInInserted(h.entries, Entry(name, option));
      }
    case Rename(at, name) =>
      if at < |h.entries| && FindEntry(h.entries, name).None? {
        RenameKeepsSorted(h.entries, at, name);
        OptionsInRemoved(h.entries, at);
        OptionsInInserted(Removed(h.entries, at), Entry(name, h.entries[at].option));
      }
    case Free(at) =>
      if at < |h.entries| {
        SortedIsDistinct(h.entries, at);
        OptionsInRemoved(h.entries, at);
      }
  }

  /** Over every run of create, rename and free the options stay sorted and unique by name, and
      the list holds exactly those that were created and not freed. */
  lemma {:induction false} RunsKeepTheList<O>(cmds: seq<Command<O>>)
    ensures var h := RunOf(cmds);
            && SortedEntries(h.entries) && DistinctEntries(h.entries)
            && multiset(h.created) == OptionsIn(h.entries) + multiset(h.freed)
  {
    if cmds != [] {
      RunsKeepTheList(cmds[..|cmds| - 1]);
      StepKeeps(RunOf(cmds[..|cmds| - 1]), cmds[|cmds| - 1]);
    }
  }
}
