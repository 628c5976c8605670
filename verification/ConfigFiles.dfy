/**
 All configuration files together: looking options up by their full names, and renaming an
 option with every option that inherits from it.
 */
module ConfigFiles {
  import opened CString
  import opened ConfigLookup
  import opened ConfigStore

  ghost function Sections(files: seq<ConfigFile>): set<ConfigSection>
    reads files
  {
    set f <- files, s <- f.sections :: s
  }

  ghost function Options(files: seq<ConfigFile>): set<ConfigOption>
    reads files, (set f <- files, s <- f.sections :: s)`members
  {
    set f <- files, s <- f.sections, o <- s.members :: o
  }

  /** No file and no section is twice in its list, and a section belongs to its file. */
  ghost predicate Shape(files: seq<ConfigFile>)
    reads files
  {
    && (forall i, j :: 0 <= i < j < |files| ==> files[i] != files[j])
    && (forall f <- files :: forall j :: 0 <= j < |f.sections| ==> f.sections[j].file == f)
    && (forall f <- files :: forall i, j :: 0 <= i < j < |f.sections| ==> f.sections[i] != f.sections[j])
  }

  ghost predicate AllValid(all: set<ConfigSection>)
    reads all, (set s <- all, o <- s.members :: o)`name
    reads (set s <- all, o <- s.members :: o)`prev, (set s <- all, o <- s.members :: o)`next
  {
    forall s <- all :: s.Valid()
  }

  /** What lookups see of the files. */
  ghost function Views(files: seq<ConfigFile>): (r: seq<FileView<ConfigOption>>)
    reads files, (set f <- files, s <- f.sections :: s)`entries
    ensures |r| == |files|
    ensures forall i :: 0 <= i < |files| ==> r[i] == FileView(files[i].name, SectionViews(files[i].sections))
    decreases |files|
  {
    if files == [] then []
    else [FileView(files[0].name, SectionViews(files[0].sections))] + Views(files[1..])
  }

  /** Valid sections, and file and section names that are unique and free of dots, make lookups
      by full name well defined. */
  lemma ViewsAreOk(files: seq<ConfigFile>)
    requires AllValid(Sections(files)) && DistinctFiles(Views(files))
    requires forall f <- files :: '.' !in f.name && DistinctSections(SectionViews(f.sections))
    requires forall s <- Sections(files) :: '.' !in s.name
    ensures StoreOk(Views(files))
  {
    hide StrCaseCmp, DistinctFiles, DistinctSections, ConfigSection.Chained;
    forall i | 0 <= i < |files| ensures FileViewOk(Views(files)[i]) {
      assert files[i] in files;
      forall j | 0 <= j < |files[i].sections| ensures SectionViewOk(Views(files)[i].sections[j]) {
        var f, s := files[i], files[i].sections[j];
        assert f in files && s in f.sections && s in Sections(files);
        SortedIsDistinct(files[i].sections[j].entries, 0);
      }
    }
  }

  /** `config_file_search` */
  method SearchFile(files: seq<ConfigFile>, name: string) returns (found: ConfigFile?)
    ensures match FindFile(Views(files), name)
            case None => found == null
            case Some(view) =>
              found != null && found in files && view == FileView(found.name, SectionViews(found.sections))
  {
    for i := 0 to |files|
      invariant forall k :: 0 <= k < i ==> !Alike(files[k].name, name)
    {
      if StrCaseCmp(files[i].name, name) == 0 {
        FindFileAt(Views(files), name, i);
        return files[i];
      }
    }
    FindFileAt(Views(files), name, |files|);
    found := null;
  }

  /** The section that a full name leads to. */
  method SearchSection(files: seq<ConfigFile>, fileName: string, name: string) returns (found: ConfigSection?)
    ensures found != null ==> found in Sections(files)
    ensures SectionOf(Views(files), fileName, name)
            == if found == null then None else Some(SectionView(found.name, found.entries))
  {
    ghost var views := Views(files);
    found := null;
    var file := SearchFile(files, fileName);
    assert views == Views(files);
    if file != null {
      var section, j := file.SearchSection(name);
      assert j < |file.sections| ==> file.sections[j] in file.sections;
      found := section;
    }
    assert views == Views(files);
  }

  method SearchValidSection(files: seq<ConfigFile>, fileName: string, name: string) returns (found: ConfigSection?)
    requires AllValid(Sections(files))
    ensures found != null ==> found.Chained()
    ensures SectionOf(old(Views(files)), fileName, name)
            == if found == null then None else Some(SectionView(found.name, found.entries))
  {
    ghost var views := Views(files);
    found := SearchSection(files, fileName, name);
    assert Views(files) == views;
  }

  /** `config_file_search_with_string` */
  method SearchWithString(files: seq<ConfigFile>, text: string) returns (found: ConfigOption?)
    requires AllValid(Sections(files))
    ensures found == match Lookup(old(Views(files)), text) case None => null case Some(o) => o
  {
    found := null;
    var parts := SplitName(text);
    if parts.Some? {
      var section := SearchValidSection(files, parts.value.file, parts.value.section);
      if section != null { found := section.SearchOption(parts.value.name); }
    }
  }

  // ------------------------------------------------------------------------ renaming

  /** A parent name is changed when it is the old full name to the letter. */
  function NewParent(parent: Option<string>, oldFull: string, newFull: string): Option<string> {
    match parent case None => None case Some(p) => Some(RenamedParent(p, oldFull, newFull))
  }

  type Parents = map<ConfigOption, Option<string>>

  /** The parents of all options, of which those in `done` have been looked at. */
  ghost predicate Progress(was: Parents, done: set<ConfigOption>, oldFull: string, newFull: string)
    reads was.Keys`parentName
  {
    forall o <- was.Keys :: o.parentName == if o in done then NewParent(was[o], oldFull, newFull) else was[o]
  }

  method UpdateParents(section: ConfigSection, oldFull: string, newFull: string,
                       ghost was: Parents, ghost done: set<ConfigOption>)
    requires section.Chained() && section.members <= was.Keys && Progress(was, done, oldFull, newFull)
    modifies was.Keys`parentName
    ensures Progress(was, done + section.members, oldFull, newFull)
  {
    hide SortedEntries, UpToDate;
    var pos := section.options;
    ghost var k := 0;
    ghost var seen: set<ConfigOption> := done;
    while pos != null
      invariant 0 <= k <= |section.list| && pos == if k < |section.list| then section.list[k] else null
      invariant Progress(was, seen, oldFull, newFull) && done <= seen <= done + section.members
      invariant forall i :: 0 <= i < k ==> section.list[i] in seen
      decreases |section.list| - k
    {
      var o: ConfigOption := pos;
      if o.parentName.Some? && o.parentName.value == oldFull {
        o.parentName := Some(newFull);
      }
      seen := seen + {o};
      pos, k := o.next, k + 1;
    }
    assert seen == done + section.members;
  }

  /** The options of all sections are known to `was`. */
  ghost predicate Known(all: set<ConfigSection>, was: Parents)
    reads all`members
  {
    forall s <- all :: s.members <= was.Keys
  }

  method UpdateFileParents(sections: seq<ConfigSection>, oldFull: string, newFull: string,
                           ghost all: set<ConfigSection>, ghost was: Parents, ghost done: set<ConfigOption>)
    returns (ghost seen: set<ConfigOption>)
    requires AllValid(all) && Known(all, was) && forall s <- sections :: s in all
    requires Progress(was, done, oldFull, newFull)
    modifies was.Keys`parentName
    ensures Progress(was, seen, oldFull, newFull) && done <= seen && forall s <- sections :: s.members <= seen
  {
    hide ConfigSection.Linked, Held, SortedEntries, Progress;
    seen := done;
    for j := 0 to |sections|
      invariant AllValid(all) && Progress(was, seen, oldFull, newFull) && done <= seen
      invariant forall m :: 0 <= m < j ==> sections[m].members <= seen
    {
      assert sections[j] in all && sections[j].Valid();
      UpdateParents(sections[j], oldFull, newFull, was, seen);
      seen := seen + sections[j].members;
    }
  }

  method UpdateAllParents(files: seq<ConfigFile>, oldFull: string, newFull: string, ghost all: set<ConfigSection>,
                          ghost was: Parents) returns (ghost done: set<ConfigOption>)
    requires AllValid(all) && Known(all, was) && Progress(was, {}, oldFull, newFull)
    requires forall i :: 0 <= i < |files| ==> forall s <- files[i].sections :: s in all
    modifies was.Keys`parentName
    ensures Progress(was, done, oldFull, newFull)
    ensures forall i :: 0 <= i < |files| ==> forall s <- files[i].sections :: s.members <= done
  {
    hide *;
    done := {};
    for i := 0 to |files|
      invariant AllValid(all) && Progress(was, done, oldFull, newFull)
      invariant forall k :: 0 <= k < i ==> forall s <- files[k].sections :: s.members <= done
    {
      done := UpdateFileParents(files[i].sections, oldFull, newFull, all, was, done);
    }
  }

  /** No option is in two sections. */
  lemma SectionsAreDisjoint(all: set<ConfigSection>, s: ConfigSection)
    requires AllValid(all) && s in all
    ensures s.Valid() && forall t <- all - {s} :: t.Valid() && t.members !! s.members
  {}

  /** Where an option is. */
  ghost predicate IsAt(files: seq<ConfigFile>, i: nat, j: nat, k: nat, o: ConfigOption)
    reads files, set f <- files, s <- f.sections :: s
  {
    && i < |files| && j < |files[i].sections| && files[i].sections[j] == o.section && o.section in Sections(files)
    && k < |o.section.list| && o.section.list[k] == o
  }

  lemma AllValidAfter(all: set<ConfigSection>, s: ConfigSection)
    requires s.Valid() && forall t <- all - {s} :: t.Valid()
    ensures AllValid(all)
  {}

  /** One section has new entries; what is seen of all others is the same. */
  lemma ViewsAfterRename(files: seq<ConfigFile>, was: seq<FileView<ConfigOption>>, i: nat, j: nat, k: nat,
                         newName: string)
    requires |was| == |files| && At(was, i, j, k)
    requires forall m :: 0 <= m < |files| && m != i ==>
               was[m] == FileView(files[m].name, SectionViews(files[m].sections))
    requires was[i].name == files[i].name && |was[i].sections| == |files[i].sections|
    requires forall n :: 0 <= n < |files[i].sections| && n != j ==>
               was[i].sections[n] == SectionView(files[i].sections[n].name, files[i].sections[n].entries)
    requires was[i].sections[j].name == files[i].sections[j].name
    requires files[i].sections[j].entries == RenameEntry(was[i].sections[j].options, k, newName)
    ensures Views(files) == Renamed(was, i, j, k, newName)
  {
    var r := Renamed(was, i, j, k, newName);
    assert SectionViews(files[i].sections) == r[i].sections;
    assert Views(files)[i] == r[i];
  }

  /** The list of one section changes, and everything stays valid. */
  method RelinkIn(o: ConfigOption, newName: string, ghost k: nat, ghost all: set<ConfigSection>)
    requires AllValid(all) && o.section in all && k < |o.section.entries| && k < |o.section.list|
    requires o.section.list[k] == o && FindEntry(o.section.entries, newName).None?
    modifies o`name, o.section.members`prev, o.section.members`next
    modifies o.section`options, o.section`lastOption, o.section`list, o.section`members, o.section`entries
    ensures AllValid(all) && o.name == newName && o.section.members == old(o.section.members)
    ensures o.section.entries == RenameEntry(old(o.section.entries), k, newName)
  {
    hide StrCaseCmp, FindEntry, InsertEntry;
    ghost var s := o.section;
    SectionsAreDisjoint(all, s);
    RenameKeepsSorted(s.entries, k, newName);
    o.section.Relink(o, k, newName);
    assert forall t <- all - {s} :: t.Valid();
    AllValidAfter(all, s);
  }

  lemma OnlyThere(files: seq<ConfigFile>, o: ConfigOption, i: nat, j: nat, k: nat)
    requires Shape(files) && AllValid(Sections(files)) && IsAt(files, i, j, k, o)
    ensures o.section.Chained() && k < |o.section.entries| && At(Views(files), i, j, k)
    ensures forall m :: 0 <= m < |files| && m != i ==> o.section !in files[m].sections
    ensures forall n :: 0 <= n < |files[i].sections| && n != j ==> files[i].sections[n] != o.section
  {
    assert o.section.Valid();
  }

  /** What lookups see of the files after one option has been renamed. */
  method RelinkSeen(files: seq<ConfigFile>, o: ConfigOption, newName: string, ghost i: nat, ghost j: nat, ghost k: nat,
                    ghost all: set<ConfigSection>)
    requires Shape(files) && all == Sections(files) && AllValid(all) && IsAt(files, i, j, k, o)
    requires FindEntry(o.section.entries, newName).None?
    modifies o`name, o.section.members`prev, o.section.members`next
    modifies o.section`options, o.section`lastOption, o.section`list, o.section`members, o.section`entries
    ensures AllValid(all) && o.name == newName && o.section.members == old(o.section.members)
    ensures At(old(Views(files)), i, j, k) && Views(files) == Renamed(old(Views(files)), i, j, k, newName)
  {
    hide FindEntry, RenameEntry, AllValid, ConfigSection.Valid, ConfigSection.Chained, Shape, StrCaseCmp, Renamed;
    ghost var was := Views(files);
    OnlyThere(files, o, i, j, k);
    RelinkIn(o, newName, k, all);
    ViewsAfterRename(files, was, i, j, k, newName);
  }

  lemma SectionsOfFiles(files: seq<ConfigFile>)
    ensures forall i :: 0 <= i < |files| ==> forall s <- files[i].sections :: s in Sections(files)
  {}

  lemma NoneDone(was: Parents, oldFull: string, newFull: string)
    requires forall p <- was.Keys :: p.parentName == was[p]
    ensures Progress(was, {}, oldFull, newFull)
  {}

  lemma OptionsOfSections(files: seq<ConfigFile>, done: set<ConfigOption>)
    requires forall i :: 0 <= i < |files| ==> forall s <- files[i].sections :: s.members <= done
    ensures Options(files) <= done
  {}

  /** Everything that a rename to a free name changes. */
  method RenameFree(files: seq<ConfigFile>, o: ConfigOption, newName: string, ghost i: nat, ghost j: nat, ghost k: nat,
                    ghost all: set<ConfigSection>, ghost was: Parents) returns (ghost done: set<ConfigOption>)
    requires Shape(files) && all == Sections(files) && AllValid(all) && IsAt(files, i, j, k, o)
    requires FindEntry(o.section.entries, newName).None?
    requires Known(all, was) && was.Keys == Options(files) && forall p <- was.Keys :: p.parentName == was[p]
    modifies o`name, o.section.members`prev, o.section.members`next, was.Keys`parentName
    modifies o.section`options, o.section`lastOption, o.section`list, o.section`members, o.section`entries
    ensures AllValid(all) && o.name == newName
    ensures At(old(Views(files)), i, j, k) && Views(files) == Renamed(old(Views(files)), i, j, k, newName)
    ensures Progress(was, done, old(o.FullName()), o.FullName()) && was.Keys <= done
  {
    hide *;
    SectionsOfFiles(files);
    var oldFull := o.FullName();
    RelinkSeen(files, o, newName, i, j, k, all);
    NoneDone(was, oldFull, o.FullName());
    done := UpdateAllParents(files, oldFull, o.FullName(), all, was);
    OptionsOfSections(files, done);
  }

  lemma KnownOptions(files: seq<ConfigFile>, was: Parents)
    requires was.Keys == Options(files)
    ensures Known(Sections(files), was)
  {}

  lemma AllDone(was: Parents, done: set<ConfigOption>, oldFull: string, newFull: string)
    requires Progress(was, done, oldFull, newFull) && was.Keys <= done
    ensures forall p <- was.Keys :: p.parentName == NewParent(was[p], oldFull, newFull)
  {}

  /** Whether a name is used in the section; looking changes nothing. */
  method IsTaken(files: seq<ConfigFile>, o: ConfigOption, name: string, ghost i: nat, ghost j: nat, ghost k: nat)
    returns (taken: bool)
    requires Shape(files) && AllValid(Sections(files)) && IsAt(files, i, j, k, o)
    ensures taken <==> FindEntry(old(o.section.entries), name).Some?
    ensures Shape(files) && AllValid(Sections(files)) && IsAt(files, i, j, k, o)
    ensures Views(files) == old(Views(files)) && Options(files) == old(Options(files))
    ensures forall p <- Options(files) :: p.parentName == old(p.parentName)
  {
    hide FindEntry, Views, ConfigSection.Valid, At;
    OnlyThere(files, o, i, j, k);
    ghost var views := Views(files);
    var found := o.section.SearchOption(name);
    taken := found != null;
    assert Views(files) == views;
  }

  /** `config_file_option_rename`: nothing happens when the new name is empty or taken; otherwise
      the option stands at the place of its new name, and in every file the parent names that
      were its full name follow. */
  method Rename(files: seq<ConfigFile>, o: ConfigOption, newName: string, ghost i: nat, ghost j: nat, ghost k: nat)
    requires Shape(files) && AllValid(Sections(files)) && IsAt(files, i, j, k, o)
    modifies o`name, o.section.members`prev, o.section.members`next, Options(files)`parentName
    modifies o.section`options, o.section`lastOption, o.section`list, o.section`members, o.section`entries
    ensures AllValid(Sections(files)) && At(old(Views(files)), i, j, k)
    ensures newName == "" || FindEntry(old(o.section.entries), newName).Some? ==>
              Views(files) == old(Views(files)) && o.name == old(o.name)
              && forall p <- old(Options(files)) :: p.parentName == old(p.parentName)
    ensures newName != "" && FindEntry(old(o.section.entries), newName).None? ==>
              Views(files) == Renamed(old(Views(files)), i, j, k, newName) && o.name == newName
              && forall p <- old(Options(files)) ::
                   p.parentName == NewParent(old(p.parentName), old(o.FullName()), o.FullName())
  {
    hide *;
    OnlyThere(files, o, i, j, k);
    if newName == "" { return; }
    var taken := IsTaken(files, o, newName, i, j, k);
    if taken { return; }
    ghost var all, options := Sections(files), Options(files);
    ghost var was := map p <- options :: p.parentName;
    assert was.Keys == options;
    KnownOptions(files, was);
    ghost var oldFull := o.FullName();
    ghost var done := RenameFree(files, o, newName, i, j, k, all, was);
    assert Sections(files) == all;
    AllDone(was, done, oldFull, o.FullName());
  }

  /** The parent is the full name, to the letter, of that option, and a lookup finds it. */
  ghost predicate Inherits(views: seq<FileView<ConfigOption>>, parent: Option<string>, from: ConfigOption) {
    parent.Some? && Names(views, parent.value, from) && Lookup(views, parent.value) == Some(from)
  }

  lemma HeirsKept(was: seq<FileView<ConfigOption>>, i: nat, j: nat, k: nat, newName: string,
                  parent: Option<string>, oldFull: string, newFull: string, from: ConfigOption)
    requires StoreOk(was) && At(was, i, j, k) && FindEntry(was[i].sections[j].options, newName) == None
    requires oldFull == NameAt(was, i, j, k)
    requires newFull == ConfigLookup.FullName(was[i].name, was[i].sections[j].name, newName)
    requires Inherits(was, parent, from)
    ensures Inherits(Renamed(was, i, j, k, newName), NewParent(parent, oldFull, newFull), from)
  {
    hide Renamed, Names, Lookup, FindEntry, StoreOk;
    RenamedIsOk(was, i, j, k, newName);
    RenamedIsNamed(was, i, j, k, newName, parent.value, from);
    NamesResolve(Renamed(was, i, j, k, newName), RenamedParent(parent.value, oldFull, newFull), from);
  }

  /** The full name of an option is the one that lookups see. */
  lemma FullNameIsSeen(files: seq<ConfigFile>, o: ConfigOption, i: nat, j: nat, k: nat)
    requires Shape(files) && AllValid(Sections(files)) && IsAt(files, i, j, k, o)
    ensures At(Views(files), i, j, k) && o.FullName() == NameAt(Views(files), i, j, k)
    ensures Views(files)[i].name == o.section.file.name && Views(files)[i].sections[j].name == o.section.name
    ensures Views(files)[i].sections[j].options == o.section.entries
  {
    assert o.section.Valid();
  }

  lemma FullNameIs(o: ConfigOption)
    ensures o.FullName() == ConfigLookup.FullName(o.section.file.name, o.section.name, o.name)
  {}

  /** On the linked lists: whatever option is renamed, and whether or not the new name is free,
      every option goes on to inherit from the option it inherited from. */
  method RenameKeepsInheritance(files: seq<ConfigFile>, o: ConfigOption, newName: string,
                                ghost i: nat, ghost j: nat, ghost k: nat)
    requires Shape(files) && AllValid(Sections(files)) && IsAt(files, i, j, k, o) && StoreOk(Views(files))
    modifies o`name, o.section.members`prev, o.section.members`next, Options(files)`parentName
    modifies o.section`options, o.section`lastOption, o.section`list, o.section`members, o.section`entries
    ensures AllValid(Sections(files)) && StoreOk(Views(files))
    ensures forall p, from :: p in old(Options(files)) && Inherits(old(Views(files)), old(p.parentName), from)
              ==> Inherits(Views(files), p.parentName, from)
  {
    hide *;
    FullNameIsSeen(files, o, i, j, k);
    ghost var was, options, entries := Views(files), Options(files), o.section.entries;
    ghost var oldFull := o.FullName();
    ghost var parents := map p <- options :: p.parentName;
    Rename(files, o, newName, i, j, k);
    if newName != "" && FindEntry(entries, newName).None? {
      RenamedIsOk(was, i, j, k, newName);
      FullNameIs(o);
      forall p, from | p in options && Inherits(was, parents[p], from)
        ensures Inherits(Views(files), p.parentName, from)
      {
        HeirsKept(was, i, j, k, newName, parents[p], oldFull, o.FullName(), from);
      }
    }
  }
}
