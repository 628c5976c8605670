/**
 The store itself: options with values set in place, linked into their section in the order
 of their names.
 */
module ConfigStore {
  import opened CString
  import opened ConfigValue
  import opened ConfigLookup
  import ConfigLaws

  /** The loop over a table of texts. */
  method FindText(table: seq<string>, text: string) returns (index: int)
    ensures index == IndexOf(table, text)
  {
    index := -1;
    for i := 0 to |table|
      invariant index == -1
      invariant forall k :: 0 <= k < i ==> StrCaseCmp(table[k], text) != 0
    {
      if StrCaseCmp(table[i], text) == 0 {
        IndexOfUnique(table, text, i);
        return i;
      }
    }
    IndexOfUnique(table, text, |table|);
  }

  /** `config_file_string_boolean_is_valid` */
  method BooleanTextIsValid(text: string) returns (valid: bool)
    ensures valid == BooleanIsValid(text)
  {
    var i := FindText(BOOLEAN_TRUE, text);
    if i >= 0 { return true; }
    i := FindText(BOOLEAN_FALSE, text);
    return i >= 0;
  }

  /** `config_file_string_to_boolean` */
  method BooleanOfText(text: string) returns (value: int)
    ensures value == StringToBoolean(text)
  {
    var i := FindText(BOOLEAN_TRUE, text);
    return if i >= 0 then 1 else 0;
  }

  /** The value of a new option, from its text. */
  method FirstValue(kind: Kind, text: Option<string>) returns (value: Option<Value>)
    ensures value == InitialOption(kind, text)
  {
    if text.None? { return None; }
    match kind
    case Boolean =>
      var n := BooleanOfText(text.value);
      return Some(Num(n));
    case Enum(names) =>
      var indexValue := 0;
      var i := FindText(names, text.value);
      if i >= 0 { indexValue := i; }
      return Some(Num(indexValue));
    case Integer(min, max) =>
      var parsed := StrToL(text.value);
      var number := parsed.value;
      if parsed.rest != [] { number := 0; }
      if number < min {
        number := min;
      } else if number > max {
        number := max;
      }
      return Some(Num(ToInt(number)));
    case Str =>
      return Some(Text(text.value));
  }

  class ConfigOption {
    const section: ConfigSection
    const spec: Spec
    const hasChange: bool
    var name: string
    var parentName: Option<string>
    var value: Option<Value>
    var loaded: bool
    var prev: ConfigOption?
    var next: ConfigOption?
    /** How often the change callback has run. */
    ghost var changes: nat

    constructor (section: ConfigSection, name: string, parentName: Option<string>, spec: Spec,
                 value: Option<Value>, hasChange: bool)
      ensures IsNew(section, name, parentName, spec, value, hasChange) && prev == null && next == null
    {
      this.section, this.name, this.parentName, this.spec := section, name, parentName, spec;
      this.value, this.hasChange := value, hasChange;
      loaded, prev, next, changes := true, null, null, 0;
    }

    ghost predicate IsNew(section: ConfigSection, name: string, parentName: Option<string>, spec: Spec,
                          value: Option<Value>, hasChange: bool)
      reads this`name, this`parentName, this`value, this`loaded, this`changes
    {
      && this.section == section && this.name == name && this.parentName == parentName && this.spec == spec
      && this.value == value && this.hasChange == hasChange && loaded && changes == 0
    }

    /** `config_file_option_full_name` */
    function FullName(): string
      reads this`name
    {
      ConfigLookup.FullName(section.file.name, section.name, name)
    }

    /** The value pointer points at a value of the option's type. */
    ghost predicate Typed()
      reads this`value
    {
      value.Some? ==> (value.value.Text? <==> spec.kind.Str?)
    }

    /** Runs the change callback when it is asked for, defined, and the value has changed. */
    method NotifyChange(rc: Code, runCallback: bool)
      modifies this`changes
      ensures changes == old(changes) + (if rc == Changed && runCallback && hasChange then 1 else 0)
    {
      if rc == Changed && runCallback && hasChange { changes := changes + 1; }
    }

    method SetBoolean(text: string) returns (rc: Code)
      requires spec.kind.Boolean? && Typed()
      modifies this`value
      ensures Outcome(rc, value) == SetValue(spec, old(value), Some(text))
    {
      rc := Error;
      var valid := BooleanTextIsValid(text);
      var valueInt := BooleanOfText(text);
      if value.None? {
        var garbage: int := *;
        value := Some(Num(garbage));
        if StrCaseCmp(text, "toggle") == 0 {
          value, rc := Some(Num(1)), Changed;
        } else if valid {
          value, rc := Some(Num(valueInt)), Changed;
        } else {
          value := None;
        }
      } else if StrCaseCmp(text, "toggle") == 0 {
        value, rc := Some(Num(if value == Some(Num(1)) then 0 else 1)), Changed;
      } else if valid {
        if value.value.n == valueInt {
          rc := Same;
        } else {
          value, rc := Some(Num(valueInt)), Changed;
        }
      }
    }

    /** Memory is allocated for a null value before the text is looked at, and released again
        when the text is refused. */
    method SetEnum(text: string) returns (rc: Code)
      requires spec.kind.Enum? && spec.kind.names != [] && Typed()
      modifies this`value
      ensures Outcome(rc, value) == SetValue(spec, old(value), Some(text))
    {
      rc := Error;
      var wasNull, oldValue := value.None?, 0;
      if wasNull {
        var garbage: int := *;
        value := Some(Num(garbage));
      } else {
        oldValue := value.value.n;
      }
      var valueInt, k := -1, |spec.kind.names|;
      if "++" <= text {
        var number := StrToL(text[2..]);
        if number.rest == [] { valueInt := ToInt(Rem(oldValue + Rem(number.value, k), k)); }
      } else if "--" <= text {
        var number := StrToL(text[2..]);
        if number.rest == [] { valueInt := ToInt(Rem(oldValue + k - Rem(number.value, k), k)); }
      } else {
        valueInt := FindText(spec.kind.names, text);
      }
      if valueInt >= 0 {
        if wasNull || valueInt != oldValue {
          value, rc := Some(Num(valueInt)), Changed;
        } else {
          rc := Same;
        }
      } else if wasNull {
        value := None;
      }
    }

    method SetInteger(text: string) returns (rc: Code)
      requires spec.kind.Integer? && Typed()
      modifies this`value
      ensures Outcome(rc, value) == SetValue(spec, old(value), Some(text))
    {
      rc := Error;
      var wasNull, oldValue := value.None?, 0;
      if wasNull {
        var garbage: int := *;
        value := Some(Num(garbage));
      } else {
        oldValue := value.value.n;
      }
      var ok, valueInt := false, 0;
      if "++" <= text {
        var number := StrToL(text[2..]);
        if number.rest == [] {
          valueInt := ToInt(oldValue + number.value);
          if valueInt <= spec.kind.max { ok := true; }
        }
      } else if "--" <= text {
        var number := StrToL(text[2..]);
        if number.rest == [] {
          valueInt := ToInt(oldValue - number.value);
          if valueInt >= spec.kind.min { ok := true; }
        }
      } else {
        var number := StrToL(text);
        if number.rest == [] {
          valueInt := ToInt(number.value);
          if valueInt >= spec.kind.min && valueInt <= spec.kind.max { ok := true; }
        }
      }
      if ok {
        if wasNull || valueInt != oldValue {
          value, rc := Some(Num(valueInt)), Changed;
        } else {
          rc := Same;
        }
      } else if wasNull {
        value := None;
      }
    }

    /** `config_file_option_set`; `accepted` is the answer of the check callback, true without
        one.  A NULL text asks for a null value. */
    method Set(text: Option<string>, accepted: bool, runCallback: bool) returns (rc: Code)
      requires WellFormed(spec.kind) && Typed()
      modifies this`value, this`changes
      ensures Typed()
      ensures Outcome(rc, value) == if accepted then SetValue(spec, old(value), text) else Outcome(Error, old(value))
      ensures (rc == Changed <==> value != old(value)) && (rc == Error ==> value == old(value))
      ensures changes == old(changes) + (if value != old(value) && runCallback && hasChange then 1 else 0)
    {
      if !accepted { return Error; }
      var oldValueWasNull := value.None?;
      if text.Some? {
        match spec.kind {
          case Boolean => rc := SetBoolean(text.value);
          case Enum(_) => rc := SetEnum(text.value);
          case Integer(_, _) => rc := SetInteger(text.value);
          case Str =>
            rc := Same;
            if value.None? || value.value.s != text.value { rc := Changed; }
            value := Some(Text(text.value));
        }
        if oldValueWasNull && value.Some? { rc := Changed; }
      } else if spec.nullAllowed && value.Some? {
        value, rc := None, Changed;
      } else {
        rc := Same;
      }
      NotifyChange(rc, runCallback);
    }

    method ResetToDefault() returns (rc: Code)
      requires spec.default.Some? && (spec.default.value.Text? <==> spec.kind.Str?) && Typed()
      modifies this`value
      ensures Typed()
      ensures Outcome(rc, value) == ResetValue(spec, old(value))
    {
      var oldValueWasNull := value.None?;
      match spec.kind {
        case Boolean =>
          if value.None? {
            value, rc := spec.default, Changed;
          } else if value == spec.default {
            rc := Same;
          } else {
            value, rc := spec.default, Changed;
          }
        case Str =>
          rc := Same;
          if value.None? || value.value.s != spec.default.value.s { rc := Changed; }
          value := spec.default;
        case _ =>
          if value.None? { value := Some(Num(0)); }
          if value.value.n == spec.default.value.n {
            rc := Same;
          } else {
            value, rc := spec.default, Changed;
          }
      }
      if oldValueWasNull && value.Some? { rc := Changed; }
    }

    /** `config_file_option_reset` */
    method Reset(runCallback: bool) returns (rc: Code)
      requires Typed() && (spec.default.Some? ==> (spec.default.value.Text? <==> spec.kind.Str?))
      modifies this`value, this`changes
      ensures Typed()
      ensures Outcome(rc, value) == ResetValue(spec, old(value))
      ensures spec.default.Some? || spec.nullAllowed ==> value == spec.default && rc != Error
      ensures spec.default.None? && !spec.nullAllowed ==> value == old(value) && rc == Error
      ensures (rc == Changed <==> value != old(value)) && (rc == Error ==> value == old(value))
      ensures changes == old(changes) + (if value != old(value) && runCallback && hasChange then 1 else 0)
    {
      rc := Error;
      if spec.default.Some? {
        rc := ResetToDefault();
      } else if spec.nullAllowed {
        if value.Some? {
          value, rc := None, Changed;
        } else {
          rc := Same;
        }
      }
      NotifyChange(rc, runCallback);
    }

    /** `config_file_option_set_null` */
    method SetNull(runCallback: bool) returns (rc: Code)
      modifies this`value, this`changes
      ensures old(Typed()) ==> Typed()
      ensures Outcome(rc, value) == SetNullValue(spec, old(value))
      ensures (rc == Changed <==> value != old(value)) && (rc == Error ==> value == old(value))
      ensures changes == old(changes) + (if value != old(value) && runCallback && hasChange then 1 else 0)
    {
      rc := Error;
      if spec.nullAllowed {
        if value.None? {
          rc := Same;
        } else {
          value, rc := None, Changed;
        }
      }
      NotifyChange(rc, runCallback);
    }
  }

  /** The entries are what lookups see of the list. */
  ghost predicate UpToDate(l: seq<ConfigOption>, entries: seq<Entry<ConfigOption>>)
    reads l`name
  {
    |entries| == |l| && forall i :: 0 <= i < |l| ==> entries[i] == Entry(l[i].name, l[i])
  }

  /** The same options three ways: in order, as a set, and with their names; all belong to one
      section. */
  ghost predicate Held(section: ConfigSection, l: seq<ConfigOption>, members: set<ConfigOption>,
                       entries: seq<Entry<ConfigOption>>)
    reads l`name
  {
    UpToDate(l, entries) && forall p <- members :: p in l && p.section == section
  }

  lemma HeldInserted(section: ConfigSection, l: seq<ConfigOption>, members: set<ConfigOption>,
                     entries: seq<Entry<ConfigOption>>, o: ConfigOption, k: nat)
    requires Held(section, l, members, entries) && PlaceOf(entries, o.name, k) && o.section == section
    ensures Held(section, l[..k] + [o] + l[k..], members + {o}, InsertEntry(entries, Entry(o.name, o)))
  {
    InsertEntryAt(entries, Entry(o.name, o), k);
    assert l == l[..k] + l[k..];
  }

  lemma HeldRemoved(section: ConfigSection, l: seq<ConfigOption>, members: set<ConfigOption>,
                    entries: seq<Entry<ConfigOption>>, k: nat)
    requires Held(section, l, members, entries) && k < |l|
    ensures Held(section, l[..k] + l[k + 1..], members - {l[k]}, Removed(entries, k))
  {
    assert l == l[..k] + [l[k]] + l[k + 1..];
  }

  lemma PutBack<T>(s: set<T>, o: T)
    requires o in s
    ensures s - {o} + {o} == s
  {}

  lemma Spliced<T>(s: seq<T>, o: T, k: nat)
    requires k <= |s|
    ensures var t := s[..k] + [o] + s[k..];
            && |t| == |s| + 1 && t[k] == o
            && (forall i :: 0 <= i < k ==> t[i] == s[i]) && (forall i :: k < i < |t| ==> t[i] == s[i - 1])
  {}

  lemma SplicedDistinct<T>(s: seq<T>, members: set<T>, o: T, k: nat)
    requires k <= |s| && o !in s && (forall i :: 0 <= i < |s| ==> s[i] in members)
    requires forall i, j :: 0 <= i < j < |s| ==> s[i] != s[j]
    ensures var t := s[..k] + [o] + s[k..];
            && (forall i :: 0 <= i < |t| ==> t[i] in members + {o})
            && (forall i, j :: 0 <= i < j < |t| ==> t[i] != t[j])
  {
    Spliced(s, o, k);
  }

  class ConfigSection {
    const file: ConfigFile
    const name: string
    var options: ConfigOption?
    var lastOption: ConfigOption?
    /** The options of the list, in order. */
    ghost var list: seq<ConfigOption>
    ghost var members: set<ConfigOption>
    /** The same with their names, as lookups see them. */
    ghost var entries: seq<Entry<ConfigOption>>

    constructor (file: ConfigFile, name: string)
      ensures this.file == file && this.name == name && entries == [] && members == {} && Valid()
    {
      this.file, this.name := file, name;
      options, lastOption, list, members, entries := null, null, [], {}, [];
    }

    /** The links from `options` on lead through `list` to `lastOption`, and the links back are
        their inverse. */
    ghost predicate Linked()
      reads this`options, this`lastOption, this`list, this`members, members`prev, members`next
    {
      && (forall i :: 0 <= i < |list| ==> list[i] in members)
      && (options == if list == [] then null else list[0])
      && (lastOption == if list == [] then null else list[|list| - 1])
      && (list != [] ==> list[0].prev == null && list[|list| - 1].next == null)
      && (forall i {:trigger list[i].next} :: 0 <= i < |list| - 1 ==> list[i].next == list[i + 1])
      && (forall i {:trigger list[i].prev} :: 0 < i < |list| ==> list[i].prev == list[i - 1])
      && (forall i, j :: 0 <= i < j < |list| ==> list[i] != list[j])
    }

    /** The list is linked both ways and holds options of this section only. */
    ghost predicate Chained()
      reads this, members`name, members`prev, members`next
    {
      Linked() && Held(this, list, members, entries)
    }

    /** Besides, it is sorted by name without duplicates. */
    ghost predicate Valid()
      reads this, members`name, members`prev, members`next
    {
      Chained() && SortedEntries(entries)
    }

    /** The position where a name belongs: before the first option it precedes. */
    method FindPos(name: string, ghost was: seq<Entry<ConfigOption>>) returns (pos: ConfigOption?, ghost k: nat)
      requires Linked() && UpToDate(list, was)
      ensures PlaceOf(was, name, k) && pos == if k < |list| then list[k] else null
    {
      pos, k := options, 0;
      while pos != null
        invariant 0 <= k <= |list| && pos == if k < |list| then list[k] else null
        invariant forall i :: 0 <= i < k ==> StrCaseCmp(name, was[i].name) >= 0
        decreases |list| - k
      {
        if StrCaseCmp(name, pos.name) < 0 { return; }
        pos, k := pos.next, k + 1;
      }
    }

    /** Links an option before a position of the list. */
    method LinkBefore(o: ConfigOption, pos: ConfigOption, ghost k: nat)
      requires Linked() && o !in list && k < |list| && list[k] == pos
      modifies this`options, this`list, this`members, members`prev, members`next, o`prev, o`next
      ensures Linked() && list == old(list)[..k] + [o] + old(list)[k..] && members == old(members) + {o}
    {
      ghost var was, next := list, list[..k] + [o] + list[k..];
      Spliced(was, o, k);
      SplicedDistinct(was, members, o, k);
      assert pos.prev == if k > 0 then list[k - 1] else null;
      o.prev := pos.prev;
      o.next := pos;
      if pos.prev != null { pos.prev.next := o; } else { options := o; }
      pos.prev := o;
      list, members := next, members + {o};
    }

    /** Links an option at the end of the list. */
    method Append(o: ConfigOption)
      requires Linked() && o !in list && list != []
      modifies this`lastOption, this`list, this`members, members`next, o`prev, o`next
      ensures Linked() && list == old(list) + [o] && members == old(members) + {o}
    {
      o.prev := lastOption;
      o.next := null;
      lastOption.next := o;
      lastOption := o;
      list, members := list + [o], members + {o};
    }

    /** `config_file_option_insert_in_section`: only links change. */
    method LinkIn(o: ConfigOption, ghost was: seq<Entry<ConfigOption>>) returns (ghost k: nat)
      requires Linked() && UpToDate(list, was) && o !in members
      modifies this`options, this`lastOption, this`list, this`members, members`prev, members`next, o`prev, o`next
      ensures Linked() && PlaceOf(was, o.name, k)
      ensures list == old(list)[..k] + [o] + old(list)[k..] && members == old(members) + {o}
    {
      if options != null {
        var pos: ConfigOption?;
        pos, k := FindPos(o.name, was);
        if pos != null { LinkBefore(o, pos, k); } else { Append(o); }
      } else {
        k := 0;
        o.prev, o.next := null, null;
        options, lastOption := o, o;
        list, members := [o], members + {o};
      }
    }

    /** An option goes to the place of its name. */
    method Insert(o: ConfigOption)
      requires Chained() && o !in members && o.section == this
      modifies this`options, this`lastOption, this`list, this`members, this`entries
      modifies members`prev, members`next, o`prev, o`next
      ensures Chained() && members == old(members) + {o}
      ensures entries == InsertEntry(old(entries), Entry(o.name, o))
    {
      ghost var l, m, was := list, members, entries;
      entries := InsertEntry(was, Entry(o.name, o));
      ghost var k := LinkIn(o, was);
      HeldInserted(this, l, m, was, o, k);
    }

    /** The links around an option are tied together, as renaming does it. */
    method Unlink(o: ConfigOption, ghost k: nat)
      requires Linked() && k < |list| && list[k] == o
      modifies this`options, this`lastOption, this`list, this`members, members`prev, members`next
      ensures Linked() && list == old(list)[..k] + old(list)[k + 1..] && members == old(members) - {o}
    {
      assert list[k].prev == if k > 0 then list[k - 1] else null;
      assert list[k].next == if k + 1 < |list| then list[k + 1] else null;
      if o.prev != null { o.prev.next := o.next; }
      if o.next != null { o.next.prev := o.prev; }
      if options == o { options := o.next; }
      if lastOption == o { lastOption := o.prev; }
      list, members := list[..k] + list[k + 1..], members - {o};
    }

    /** The links around an option are tied together, as freeing does it. */
    method UnlinkFreed(o: ConfigOption, ghost k: nat)
      requires Linked() && k < |list| && list[k] == o
      modifies this`options, this`lastOption, this`list, this`members, members`prev, members`next
      ensures Linked() && list == old(list)[..k] + old(list)[k + 1..] && members == old(members) - {o}
    {
      assert list[k].prev == if k > 0 then list[k - 1] else null;
      assert list[k].next == if k + 1 < |list| then list[k + 1] else null;
      if lastOption == o { lastOption := o.prev; }
      var newOptions: ConfigOption?;
      if o.prev != null {
        o.prev.next := o.next;
        newOptions := options;
      } else {
        newOptions := o.next;
      }
      if o.next != null { o.next.prev := o.prev; }
      assert newOptions == if k > 0 then list[0] else if |list| > 1 then list[1] else null;
      options := newOptions;
      list, members := list[..k] + list[k + 1..], members - {o};
    }

    /** What taking an option out for a rename does to the list. */
    method Detach(o: ConfigOption, ghost k: nat)
      requires Chained() && k < |list| && list[k] == o
      modifies this`options, this`lastOption, this`list, this`members, this`entries, members`prev, members`next
      ensures Chained() && members == old(members) - {o} && entries == Removed(old(entries), k)
    {
      ghost var l, m, was := list, members, entries;
      entries := Removed(was, k);
      Unlink(o, k);
      HeldRemoved(this, l, m, was, k);
    }

    /** What freeing an option does to the list. */
    method DetachFreed(o: ConfigOption, ghost k: nat)
      requires Chained() && k < |list| && list[k] == o
      modifies this`options, this`lastOption, this`list, this`members, this`entries, members`prev, members`next
      ensures Chained() && members == old(members) - {o} && entries == Removed(old(entries), k)
    {
      ghost var l, m, was := list, members, entries;
      entries := Removed(was, k);
      UnlinkFreed(o, k);
      HeldRemoved(this, l, m, was, k);
    }

    /** `config_file_option_free`: the option leaves the list. */
    method FreeOption(o: ConfigOption, ghost k: nat)
      requires Valid() && k < |list| && list[k] == o
      modifies this`options, this`lastOption, this`list, this`members, this`entries, members`prev, members`next
      ensures Valid() && members == old(members) - {o} && entries == Removed(old(entries), k)
    {
      SortedIsDistinct(entries, k);
      DetachFreed(o, k);
    }

    /** `config_file_section_free_options` */
    method FreeOptions()
      requires Valid()
      modifies this`options, this`lastOption, this`list, this`members, this`entries, members`prev, members`next
      ensures Valid() && entries == [] && options == null && lastOption == null
    {
      while options != null
        invariant Valid() && members <= old(members)
        decreases |list|
      {
        FreeOption(options, 0);
      }
    }

    /** `config_file_search_option` in the section. */
    method SearchOption(name: string) returns (found: ConfigOption?)
      requires Chained()
      ensures found == match FindEntry(entries, name) case None => null case Some(o) => o
      ensures found != null ==> found in members && Alike(found.name, name)
    {
      found := options;
      ghost var k := 0;
      while found != null
        invariant 0 <= k <= |list| && found == if k < |list| then list[k] else null
        invariant forall i :: 0 <= i < k ==> !Alike(list[i].name, name)
        decreases |list| - k
      {
        if StrCaseCmp(found.name, name) == 0 {
          FindEntryAt(entries, name, k);
          return;
        }
        found, k := found.next, k + 1;
      }
      FindEntryAt(entries, name, k);
    }

    /** The option that `config_file_new_option` allocates and fills in. */
    method MakeOption(name: string, parentName: Option<string>, kind: Kind, nullAllowed: bool,
                      default: Option<string>, value: Option<string>, hasChange: bool) returns (o: ConfigOption?)
      ensures match ConfigValue.NewOption(kind, nullAllowed, default, value)
              case None => o == null
              case Some((spec, v)) => o != null && fresh(o) && o.IsNew(this, name, parentName, spec, v, hasChange)
    {
      var default', value' := default, value;
      if !nullAllowed {
        if default.Some? && value.None? {
          value' := default;
        } else if default.None? && value.Some? {
          default' := value;
        }
        if default'.None? || value'.None? { return null; }
      }
      var first := FirstValue(kind, default');
      var spec := Spec(kind, nullAllowed, first);
      first := FirstValue(kind, value');
      o := new ConfigOption(this, name, parentName, spec, first, hasChange);
    }

    /** An option is made, and linked unless it is refused. */
    method AddOption(name: string, parentName: Option<string>, kind: Kind, nullAllowed: bool,
                     default: Option<string>, value: Option<string>, hasChange: bool) returns (o: ConfigOption?)
      requires Chained()
      modifies this`options, this`lastOption, this`list, this`members, this`entries, members`prev, members`next
      ensures Chained()
      ensures match ConfigValue.NewOption(kind, nullAllowed, default, value)
              case None => o == null && entries == old(entries) && members == old(members)
              case Some((spec, v)) =>
                && o != null && fresh(o) && o.IsNew(this, name, parentName, spec, v, hasChange)
                && entries == InsertEntry(old(entries), Entry(name, o)) && members == old(members) + {o}
    {
      hide Linked, Held, InsertEntry, ConfigValue.NewOption;
      o := MakeOption(name, parentName, kind, nullAllowed, default, value, hasChange);
      if o != null { Insert(o); }
    }

    /** `config_file_new_option` in the section: an option "name << parent" inherits from its
        parent by name, and a name is used only once. */
    method NewOption(text: string, kind: Kind, nullAllowed: bool, default: Option<string>,
                     value: Option<string>, hasChange: bool) returns (o: ConfigOption?)
      requires Valid() && WellFormed(kind)
      modifies this`options, this`lastOption, this`list, this`members, this`entries, members`prev, members`next
      ensures Valid()
      ensures o == null <==> FindEntry(old(entries), OptionName(text)).Some?
                             || ConfigValue.NewOption(kind, nullAllowed, default, value).None?
      ensures o == null ==> entries == old(entries) && members == old(members)
      ensures o != null ==>
                var (spec, v) := ConfigValue.NewOption(kind, nullAllowed, default, value).value;
                && fresh(o) && o.IsNew(this, OptionName(text), ParentName(text), spec, v, hasChange)
                && entries == InsertEntry(old(entries), Entry(OptionName(text), o)) && members == old(members) + {o}
      ensures o != null ==> IsNamed(text, o.name, o.parentName)
                            && ConfigLaws.MadeFrom(kind, nullAllowed, default, value, o.spec, o.value)
    {
      ConfigLaws.NewOptionIs(kind, nullAllowed, default, value);
      hide ConfigLaws.MadeFrom, ConfigValue.NewOption, WellFormed;
      hide IsNamed, OptionName, ParentName, FindEntry, InsertEntry, Linked, Held, StrCaseCmp;
      NamesOfText(text);
      var found := SearchOption(OptionName(text));
      if found != null { return null; }
      o := AddOption(OptionName(text), ParentName(text), kind, nullAllowed, default, value, hasChange);
      if o != null { InsertKeepsSorted(old(entries), Entry(o.name, o)); }
    }

    /** The part of `config_file_option_rename` that concerns the list: the option is taken out,
        renamed and put back at the place of its new name. */
    method Relink(o: ConfigOption, ghost k: nat, newName: string)
      requires Chained() && k < |list| && list[k] == o
      modifies this`options, this`lastOption, this`list, this`members, this`entries
      modifies members`prev, members`next, o`name
      ensures Chained() && o.name == newName && members == old(members)
      ensures entries == RenameEntry(old(entries), k, newName)
    {
      PutBack(members, o);
      Detach(o, k);
      o.name := newName;
      Insert(o);
    }
  }

  /** Where an option of another name begins. */
  const INHERITS := " << "

  /** `strstr` */
  function FirstPlace(s: string, t: string): (r: Option<nat>)
    ensures r.Some? ==> r.value + |t| <= |s|
  {
    if t <= s then Some(0)
    else if s == "" then None
    else match FirstPlace(s[1..], t)
      case None => None
      case Some(p) => Some(p + 1)
  }

  function OptionName(text: string): string {
    match FirstPlace(text, INHERITS) case None => text case Some(p) => text[..p]
  }

  function ParentName(text: string): Option<string> {
    match FirstPlace(text, INHERITS) case None => None case Some(p) => Some(text[p + |INHERITS|..])
  }

  predicate StandsAt(s: string, t: string, p: nat) { p + |t| <= |s| && s[p..p + |t|] == t }

  lemma StandsLater(s: string, t: string, q: nat)
    requires s != "" && q > 0
    ensures StandsAt(s, t, q) <==> StandsAt(s[1..], t, q - 1)
  {
    var (u, p) := (s[1..], q - 1);
    if q + |t| <= |s| {
      var (a, b) := (s[q..q + |t|], u[p..p + |t|]);
      assert forall i :: 0 <= i < |t| ==> a[i] == b[i];
      assert a == b;
    }
  }

  /** The search finds the first occurrence, and nothing exactly when there is none. */
  lemma {:induction false} FirstPlaceIsFirst(s: string, t: string)
    ensures match FirstPlace(s, t)
            case None => forall q: nat :: !StandsAt(s, t, q)
            case Some(p) => StandsAt(s, t, p) && forall q: nat :: q < p ==> !StandsAt(s, t, q)
  {
    if t <= s {
      assert s[0..0 + |t|] == t;
    } else if s != "" {
      FirstPlaceIsFirst(s[1..], t);
      assert !StandsAt(s, t, 0);
      forall q: nat | q > 0 ensures StandsAt(s, t, q) <==> StandsAt(s[1..], t, q - 1) { StandsLater(s, t, q); }
      if FirstPlace(s[1..], t).Some? {
        var p := FirstPlace(s[1..], t).value;
        StandsLater(s, t, p + 1);
      }
    }
  }

  /** What the text of a new option says: " << " and the name of a parent after a name, or a name
      alone.  The first " << " counts. */
  ghost predicate IsNamed(text: string, name: string, parent: Option<string>) {
    match parent
    case None => name == text && forall q: nat :: !StandsAt(text, " << ", q)
    case Some(p) => text == name + (" << " + p) && forall q: nat :: !StandsAt(name + " <<", " << ", q)
  }

  lemma PlaceInPrefix(name: string, parent: string, q: nat)
    ensures q < |name| ==> (StandsAt(name + (" << " + parent), " << ", q) <==> StandsAt(name + " <<", " << ", q))
    ensures StandsAt(name + (" << " + parent), " << ", |name|)
    ensures q >= |name| ==> !StandsAt(name + " <<", " << ", q)
  {
    var (s, t) := (name + (" << " + parent), name + " <<");
    if q + 4 <= |t| { assert s[q..q + 4] == t[q..q + 4]; }
  }

  /** The two parts of the text of a new option are the only ones of which the name is followed by
      its first " << ". */
  lemma NamesOfText(text: string)
    ensures IsNamed(text, OptionName(text), ParentName(text))
  {
    FirstPlaceIsFirst(text, INHERITS);
    match FirstPlace(text, INHERITS)
    case None =>
    case Some(p) =>
      var (name, parent) := (text[..p], text[p + 4..]);
      assert text == name + (text[p..p + 4] + parent);
      forall q: nat ensures !StandsAt(name + " <<", " << ", q) { PlaceInPrefix(name, parent, q); }
  }

  /** Creating from a name, " << " and the name of a parent gives that name and that parent if and
      only if " << " does not begin inside the name. */
  lemma InheritsIff(name: string, parent: string)
    ensures var text := name + (" << " + parent);
            (OptionName(text) == name && ParentName(text) == Some(parent))
            <==> forall q: nat :: !StandsAt(name + " <<", " << ", q)
  {
    var text := name + (" << " + parent);
    NamesOfText(text);
    FirstPlaceIsFirst(text, INHERITS);
    PlaceInPrefix(name, parent, 0);
    if forall q: nat :: !StandsAt(name + " <<", " << ", q) {
      var p := FirstPlace(text, INHERITS).value;
      PlaceInPrefix(name, parent, p);
      assert text[..|name|] == name && text[|name| + 4..] == parent;
    }
  }

  function Elements<T>(s: seq<T>): (r: set<T>)
    ensures (forall x <- s :: x in r) && (forall x <- r :: x in s)
  {
    set x <- s :: x
  }

  ghost function SectionViews(sections: seq<ConfigSection>): (r: seq<SectionView<ConfigOption>>)
    reads Elements(sections)`entries
    ensures |r| == |sections|
    ensures forall j :: 0 <= j < |sections| ==> r[j] == SectionView(sections[j].name, sections[j].entries)
    decreases |sections|
  {
    if sections == [] then []
    else [SectionView(sections[0].name, sections[0].entries)] + SectionViews(sections[1..])
  }

  class ConfigFile {
    const name: string
    const filename: string
    /** The list from `sections` to `last_section`. */
    var sections: seq<ConfigSection>

    constructor (name: string)
      ensures this.name == name && filename == name + ".conf" && sections == []
    {
      this.name, filename, sections := name, name + ".conf", [];
    }

    /** `config_file_search_section` */
    method SearchSection(name: string) returns (found: ConfigSection?, ghost j: nat)
      ensures j <= |sections| && found == if j < |sections| then sections[j] else null
      ensures forall i :: 0 <= i < j ==> !Alike(sections[i].name, name)
      ensures j < |sections| ==> Alike(sections[j].name, name)
      ensures FindSection(SectionViews(sections), name)
              == if found == null then None else Some(SectionView(found.name, found.entries))
    {
      for k := 0 to |sections|
        invariant forall i :: 0 <= i < k ==> !Alike(sections[i].name, name)
      {
        if StrCaseCmp(sections[k].name, name) == 0 {
          FindSectionAt(SectionViews(sections), name, k);
          return sections[k], k;
        }
      }
      FindSectionAt(SectionViews(sections), name, |sections|);
      found, j := null, |sections|;
    }

    /** `config_file_new_section` */
    method NewSection(name: string) returns (section: ConfigSection?)
      modifies this
      ensures section == null <==> FindSection(old(SectionViews(sections)), name).Some?
      ensures section == null ==> sections == old(sections)
      ensures section != null ==>
                && fresh(section) && section.Valid() && section.file == this && section.name == name
                && section.entries == [] && section.members == {} && sections == old(sections) + [section]
    {
      ghost var was := SectionViews(sections);
      var found, _ := SearchSection(name);
      assert was == SectionViews(sections);
      if found != null { return null; }
      section := new ConfigSection(this, name);
      sections := sections + [section];
    }
  }
}
