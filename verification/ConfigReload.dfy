/**
 Writing the options of a file and reloading them, on the linked lists.
 */
module ConfigReload {
  import opened CString
  import opened ConfigText
  import opened ConfigStore
  import opened ConfigReader
  import opened ConfigRoundTrip

  ghost predicate SectionHasValues(section: ConfigSection, options: seq<OptionState>)
    reads section`list, Elements(section.list)`value
  {
    |section.list| == |options| && forall k :: 0 <= k < |options| ==> section.list[k].value == options[k].value
  }

  /** Every option has the value of its counterpart. */
  ghost predicate HaveValues(sections: seq<ConfigSection>, states: FileState)
    reads sections, (set s <- sections, o <- s.list :: o)`value
  {
    |sections| == |states| && forall i :: 0 <= i < |sections| ==> SectionHasValues(sections[i], states[i].options)
  }

  lemma ShownValues(sections: seq<ConfigSection>, states: FileState)
    requires Shows(sections, MapOptions(states, Load))
    ensures HaveValues(sections, states)
  {
    var loaded := MapOptions(states, Load);
    forall i | 0 <= i < |sections| ensures SectionHasValues(sections[i], states[i].options) {
      assert ShowsSection(sections[i], loaded[i]);
      assert forall k :: 0 <= k < |states[i].options| ==> loaded[i].options[k] == Load(states[i].options[k]);
    }
  }

  /** What one program writes, another one with the same options reloads: whatever values its
      options have, each of them gets the value of its counterpart, and counts as loaded. */
  method WriteThenReload(source: ConfigFile, target: ConfigFile, title: string,
                         ghost states: FileState, ghost before: FileState)
    requires AllSound(source.sections) && Shows(source.sections, states) && Writable(states)
    requires AllSound(target.sections) && Shows(target.sections, before) && SameShape(before, states)
    requires '\n' !in title && '\n' !in source.filename && '\0' !in title && '\0' !in source.filename
    requires |title| + |source.filename| + 6 < LINE_MAX
    modifies (set s <- target.sections, o <- s.members :: o)`value
    modifies (set s <- target.sections, o <- s.members :: o)`loaded
    modifies (set s <- target.sections, o <- s.members :: o)`changes
    ensures AllSound(target.sections) && Shows(target.sections, MapOptions(states, Load))
    ensures HaveValues(target.sections, states)
  {
    hide *;
    var text := Write(source, title, states);
    WriteThenReloadRestores(title, source.filename, states, before);
    ReloadFile(target, text, before);
    ShownValues(target.sections, states);
  }
}
