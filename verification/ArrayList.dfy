/**
 The array list itself: fields updated in place, slots shifted and reallocated.  Every
 method is proved to make exactly the step that `ArrayListSpec` gives it.
 */
module ArrayList {
  import opened ArrayListSpec
  import opened ArrayListOrder

  lemma AllAfter(cmp: Comparator, s: seq<Pointer>, x: Pointer, m: nat)
    requires TotalPreorder(cmp) && Sorted(cmp, s) && m < |s| && cmp(x, s[m]) < 0
    ensures forall i :: m <= i < |s| ==> cmp(x, s[i]) < 0
  {
    forall i | m < i < |s| ensures cmp(x, s[i]) < 0 { Chain(cmp, x, s[m], s[i]); }
  }

  lemma AllBefore(cmp: Comparator, s: seq<Pointer>, x: Pointer, m: nat)
    requires TotalPreorder(cmp) && Sorted(cmp, s) && m < |s| && cmp(x, s[m]) > 0
    ensures forall i :: 0 <= i <= m ==> cmp(x, s[i]) > 0
  {
    forall i | 0 <= i <= m ensures cmp(x, s[i]) > 0 {
      assert Opposite(cmp, s[m], x);
      if i < m { Chain(cmp, s[i], s[m], x); }
      assert Opposite(cmp, s[i], x);
    }
  }

  /** In a strictly sorted list an element equal to `x` is the only one: `x` comes after all
      before it and before all after it. */
  lemma StrictNeighbours(cmp: Comparator, s: seq<Pointer>, x: Pointer, m: nat)
    requires TotalPreorder(cmp) && StrictlySorted(cmp, s) && m < |s| && cmp(x, s[m]) == 0
    ensures forall i :: 0 <= i < m ==> cmp(x, s[i]) > 0
    ensures forall i :: m < i < |s| ==> cmp(x, s[i]) < 0
  {
    Equal(cmp, x, s[m]);
    forall i | 0 <= i < m ensures cmp(x, s[i]) > 0 { Chain(cmp, s[i], s[m], x); assert Opposite(cmp, s[i], x); }
    forall i | m < i < |s| ensures cmp(x, s[i]) < 0 { Chain(cmp, x, s[m], s[i]); }
  }

  /** What a sorted search reports once the equal elements are delimited. */
  lemma Delimits(c: Settings, s: seq<Pointer>, x: Pointer, lo: nat, hi: nat)
    requires c.sorted && lo <= hi <= |s|
    requires forall i :: 0 <= i < lo ==> c.cmp(x, s[i]) > 0
    requires forall i :: lo <= i < hi ==> c.cmp(x, s[i]) == 0
    requires hi < |s| ==> c.cmp(x, s[hi]) < 0
    ensures Search(c, s, x) == if lo < hi then Hit(lo, hi) else Hit(-1, if lo == |s| then -1 else lo)
  {
    if lo < |s| { assert c.cmp(x, s[lo]) <= 0; }
  }

  lemma FirstEqualIs(cmp: Comparator, s: seq<Pointer>, x: Pointer, i: nat)
    requires i <= |s| && (forall k :: 0 <= k < i ==> cmp(s[k], x) != 0) && (i < |s| ==> cmp(s[i], x) == 0)
    ensures FirstEqual(cmp, s, x) == if i < |s| then i else -1
  {
    var f := FirstEqual(cmp, s, x);
    if f >= 0 { assert cmp(s[f], x) == 0; }
  }

  lemma RemoveKeepsOrder(c: Settings, s: seq<Pointer>, i: nat)
    requires Ordered(c, s) && i < |s|
    ensures Ordered(c, s[..i] + s[i + 1..])
  {
    var w := s[..i] + s[i + 1..];
    assert forall k :: 0 <= k < |w| ==> w[k] == s[if k < i then k else k + 1];
  }

  ghost predicate Sound(c: Settings, st: State) {
    Books(c, st) && (c.sorted ==> Ordered(c, st.items))
  }

  lemma RemoveSound(c: Settings, st: State, i: nat)
    requires Sound(c, st) && i < |st.items|
    ensures Sound(c, RemoveAt(c, st, i))
  {
    RemoveAtBooks(c, st, i);
    if c.sorted { RemoveKeepsOrder(c, st.items, i); }
  }

  lemma InsertSound(c: Settings, st: State, index: int, x: Pointer)
    requires Sound(c, st)
    ensures Sound(c, DoInsert(c, st, index, x))
  {
    InsertBooks(c, st, index, x);
    if c.sorted { InsertKeepsOrder(c, st, index, x); }
  }

  lemma ItemsInserted(was: seq<Pointer>, now: seq<Pointer>, at: nat, x: Pointer)
    requires at <= |was| && |now| == |was| + 1 && now[at] == x
    requires forall i :: 0 <= i < at ==> now[i] == was[i]
    requires forall i :: at < i < |now| ==> now[i] == was[i - 1]
    ensures now == was[..at] + [x] + was[at..]
  {}

  lemma ItemsRemoved(was: seq<Pointer>, now: seq<Pointer>, at: nat)
    requires at < |was| && |now| == |was| - 1
    requires forall i :: 0 <= i < at ==> now[i] == was[i]
    requires forall i :: at <= i < |now| ==> now[i] == was[i + 1]
    ensures now == was[..at] + was[at + 1..]
  {}

  lemma DoInsertIs(c: Settings, st: State, index: int, x: Pointer)
    ensures var (st1, at) := Prepare(c, st, index, x);
            var (r, k, n) := (DoInsert(c, st, index, x), Clamp(at, |st1.items|), GrowTo(|st1.items|, st1.alloc));
            && r.items == st1.items[..k] + [x] + st1.items[k..] && r.alloc == n
            && r.copied == st1.copied + (if n != st1.alloc then st1.alloc else 0) && r.freed == st1.freed
  {
    hide Prepare, GrowTo;
  }

  /** The list `t` is `s` after an insertion: without duplicates the equal elements are gone; the new
      one stands where the order wants it, or in an unsorted list at the index, or at the end. */
  predicate IsInserted(c: Settings, s: seq<Pointer>, index: int, x: Pointer, t: seq<Pointer>) {
    var w := if c.allowDuplicates then s else Without(c.cmp, s, x);
    t == if c.sorted then InsertSorted(c.cmp, w, x)
         else if 0 <= index <= |w| then w[..index] + [x] + w[index..]
         else w + [x]
  }

  lemma InsertedItems(c: Settings, st: State, index: int, x: Pointer)
    requires Sound(c, st)
    ensures IsInserted(c, st.items, index, x, DoInsert(c, st, index, x).items)
  {
    if c.sorted { SortedInsertItems(c, st, index, x); } else { UnsortedInsertItems(c, st, index, x); }
  }

  lemma Removed(c: Settings, st: State, i: nat)
    requires i < |st.items|
    ensures var (r, n) := (RemoveAt(c, st, i), ShrinkTo(|st.items|, st.alloc, c.allocMin));
            && r.items == st.items[..i] + st.items[i + 1..] && r.alloc == n
            && r.copied == st.copied + (if n != st.alloc then n else 0)
            && r.freed == st.freed + (if c.hasFree then [st.items[i]] else [])
  {}

  lemma ClearSound(c: Settings, st: State)
    requires Sound(c, st)
    ensures Sound(c, DoClear(c, st)) && (c.allocMin > 0 ==> st.alloc > 0)
  {
    ClearBooks(c, st);
  }

  class ArrayList {
    const c: Settings
    var size: int
    var sizeAlloc: int
    var data: array?<Pointer>

    /** Slots copied by `realloc` so far. */
    ghost var copied: nat
    /** The arguments of the calls made to the free callback. */
    ghost var freed: seq<Pointer>
    /** The state the specification is in. */
    ghost var state: State

    ghost function Items(): seq<Pointer>
      requires Shape()
      reads this, data
    {
      if data == null then [] else data[..size]
    }

    /** The slots: `data` is null exactly without allocation, and unused slots are null. */
    ghost predicate Shape()
      reads this, data
    {
      && 0 <= size <= sizeAlloc
      && (data == null <==> sizeAlloc == 0)
      && (data != null ==> data.Length == sizeAlloc && forall i :: size <= i < sizeAlloc ==> data[i] == NULL)
    }

    /** The fields are those of the state. */
    ghost predicate Refines(st: State)
      reads this, data
    {
      Shape() && Items() == st.items && sizeAlloc == st.alloc && copied == st.copied && freed == st.freed
    }

    /** What holds between any two calls: the fields are those of `state`, whose books balance
        and whose elements are in order. */
    ghost predicate Valid()
      reads this, data
    {
      Refines(state) && Sound(c, state)
    }

    constructor (c: Settings)
      requires c.sorted ==> TotalPreorder(c.cmp)
      ensures Valid() && state == Initial(c) && this.c == c
      ensures data == null || fresh(data)
    {
      this.c := c;
      size := 0;
      if c.allocMin > 0 {
        sizeAlloc := c.allocMin;
        data := new Pointer[c.allocMin](_ => NULL);
      } else {
        sizeAlloc := 0;
        data := null;
      }
      copied, freed, state := 0, [], Initial(c);
    }

    /** A negative initial size is refused. */
    static method New(initialSize: int, sorted: bool, allowDuplicates: bool, cmp: Comparator, hasFree: bool)
      returns (list: ArrayList?)
      requires sorted ==> TotalPreorder(cmp)
      ensures list == null <==> initialSize < 0
      ensures list != null ==>
                && fresh(list) && list.Valid()
                && list.c == Settings(cmp, sorted, allowDuplicates, initialSize, hasFree)
                && list.state == Initial(list.c)
    {
      if initialSize < 0 { return null; }
      list := new ArrayList(Settings(cmp, sorted, allowDuplicates, initialSize, hasFree));
    }

    method Get(index: int) returns (pointer: Pointer)
      requires Valid()
      ensures pointer == if 0 <= index < |Items()| then Items()[index] else NULL
    {
      if index < 0 || index >= size { return NULL; }
      return data[index];
    }

    /** `realloc`: `n` slots holding what fits of the old ones.  The slots copied are counted. */
    method Realloc(n: nat)
      requires data == null <==> sizeAlloc == 0
      requires data != null ==> data.Length == sizeAlloc
      requires n > 0
      modifies this`data, this`copied
      ensures fresh(data) && data.Length == n
      ensures forall i :: 0 <= i < n ==> data[i] == if i < sizeAlloc then old(data)[i] else NULL
      ensures copied == old(copied) + (if sizeAlloc < n then sizeAlloc else n)
    {
      var slots := new Pointer[n](_ => NULL);
      var kept := if sizeAlloc < n then sizeAlloc else n;
      forall i | 0 <= i < kept { slots[i] := data[i]; }
      data := slots;
      copied := copied + kept;
    }

    /** Makes room for one more element. */
    method Grow()
      requires Shape()
      modifies this`data, this`sizeAlloc, this`copied
      ensures Shape() && Items() == old(Items()) && size < sizeAlloc
      ensures sizeAlloc == GrowTo(size, old(sizeAlloc))
      ensures copied == old(copied) + (if sizeAlloc != old(sizeAlloc) then old(sizeAlloc) else 0)
      ensures data == old(data) || fresh(data)
    {
      if size + 1 <= sizeAlloc { return; }
      var newSizeAlloc := if sizeAlloc < 2 then 2 else sizeAlloc + sizeAlloc / 2;
      Realloc(newSizeAlloc);
      sizeAlloc := newSizeAlloc;
    }

    /** Gives slots back.  `size` still counts the last slot, which is already cleared. */
    method Shrink()
      requires 0 < size <= sizeAlloc && data != null && data.Length == sizeAlloc
      requires forall i :: size - 1 <= i < sizeAlloc ==> data[i] == NULL
      modifies this`data, this`sizeAlloc, this`copied
      ensures sizeAlloc == ShrinkTo(size, old(sizeAlloc), c.allocMin) && size <= sizeAlloc + 1
      ensures data == null <==> sizeAlloc == 0
      ensures sizeAlloc == 0 ==> size == 1
      ensures data != null ==> data.Length == sizeAlloc
                               && (forall i :: size - 1 <= i < sizeAlloc ==> data[i] == NULL)
                               && (forall i :: 0 <= i < size - 1 ==> data[i] == old(data[i]))
      ensures copied == old(copied) + (if sizeAlloc != old(sizeAlloc) then sizeAlloc else 0)
      ensures data == old(data) || data == null || fresh(data)
    {
      if sizeAlloc == 0 || sizeAlloc <= c.allocMin { return; }
      if sizeAlloc == 1 {
        data := null;
        sizeAlloc := 0;
        return;
      }
      var newSizeAlloc := sizeAlloc - sizeAlloc / 2;
      if size - 1 >= newSizeAlloc { return; }
      Realloc(newSizeAlloc);
      sizeAlloc := newSizeAlloc;
    }

    /** Binary search behind four quick answers, then the run of equal elements. */
    method BinarySearch(pointer: Pointer) returns (found: Pointer, index: int, indexInsert: int)
      requires Valid() && c.sorted && size > 0
      ensures Hit(index, indexInsert) == ArrayListSpec.Search(c, Items(), pointer)
      ensures found == if index >= 0 then Items()[index] else NULL
    {
      hide Books, ArrayListSpec.Search, TotalPreorder;
      ghost var s := Items();
      assert TotalPreorder(c.cmp) && Sorted(c.cmp, s);
      hide Sound, Sorted;
      var start, end := 0, size - 1;
      var rc := c.cmp(pointer, data[end]);
      if rc == 0 {
        found, index, indexInsert := Expand(pointer, end);
        return;
      }
      if rc > 0 {
        AllBefore(c.cmp, s, pointer, end);
        Delimits(c, s, pointer, size, size);
        return NULL, -1, -1;
      }
      if size == 1 {
        Delimits(c, s, pointer, 0, 0);
        return NULL, -1, 0;
      }
      rc := c.cmp(pointer, data[start]);
      if rc == 0 {
        found, index, indexInsert := Expand(pointer, start);
        return;
      }
      if rc < 0 {
        Delimits(c, s, pointer, 0, 0);
        return NULL, -1, start;
      }
      if size == 2 {
        Delimits(c, s, pointer, 1, 1);
        return NULL, -1, end;
      }
      start, end := start + 1, end - 1;
      found, index, indexInsert := NULL, -1, -1;
      while start <= end
        invariant 1 <= start <= end + 1 <= size - 1
        invariant forall i :: 0 <= i < start ==> c.cmp(pointer, s[i]) > 0
        invariant forall i :: end < i < size ==> c.cmp(pointer, s[i]) < 0
        invariant index == -1 && found == NULL && (start > end ==> indexInsert == start)
        decreases end - start
      {
        var middle := (start + end) / 2;
        rc := c.cmp(pointer, data[middle]);
        if rc == 0 {
          found, index, indexInsert := Expand(pointer, middle);
          return;
        }
        if rc < 0 {
          AllAfter(c.cmp, s, pointer, middle);
          end := middle - 1;
        } else {
          AllBefore(c.cmp, s, pointer, middle);
          start := middle + 1;
        }
        if start > end {
          index := -1;
          indexInsert := if rc < 0 then middle else middle + 1;
          found := NULL;
        }
      }
      Delimits(c, s, pointer, start, start);
    }

    /** The end of the search after a hit at `hit`: with duplicates, walk to the first equal
        element and past the last one. */
    method Expand(pointer: Pointer, hit: nat) returns (found: Pointer, index: int, indexInsert: int)
      requires Valid() && c.sorted && hit < size && c.cmp(pointer, data[hit]) == 0
      ensures index >= 0 && Hit(index, indexInsert) == ArrayListSpec.Search(c, Items(), pointer)
      ensures 0 <= index < |Items()| && found == Items()[index]
    {
      hide Books, ArrayListSpec.Search, TotalPreorder;
      ghost var s := Items();
      index, indexInsert, found := hit, hit + 1, data[hit];
      if !c.allowDuplicates {
        StrictNeighbours(c.cmp, s, pointer, hit);
        Delimits(c, s, pointer, hit, hit + 1);
        return;
      }
      var start := hit - 1;
      while start >= 0
        invariant -1 <= start < hit
        invariant forall i :: start < i <= hit ==> c.cmp(pointer, s[i]) == 0
      {
        if c.cmp(pointer, data[start]) != 0 { break; }
        start := start - 1;
      }
      if start >= 0 { NotAfterBefore(c.cmp, s, pointer, start, hit); }
      start := start + 1;
      var end := hit + 1;
      while end < size
        invariant hit < end <= size
        invariant forall i :: hit <= i < end ==> c.cmp(pointer, s[i]) == 0
      {
        if c.cmp(pointer, data[end]) != 0 { break; }
        end := end + 1;
      }
      if end < size { Chain(c.cmp, pointer, s[hit], s[end]); }
      end := end - 1;
      Delimits(c, s, pointer, start, end + 1);
      return data[start], start, end + 1;
    }

    method StandardSearch(pointer: Pointer) returns (found: Pointer, index: int, indexInsert: int)
      requires Valid() && !c.sorted
      ensures Hit(index, indexInsert) == ArrayListSpec.Search(c, Items(), pointer)
      ensures found == if index >= 0 then Items()[index] else NULL
    {
      ghost var s := Items();
      var i := 0;
      while i < size
        invariant 0 <= i <= size
        invariant forall k :: 0 <= k < i ==> c.cmp(s[k], pointer) != 0
      {
        if c.cmp(data[i], pointer) == 0 {
          FirstEqualIs(c.cmp, s, pointer, i);
          return data[i], i, -1;
        }
        i := i + 1;
      }
      FirstEqualIs(c.cmp, s, pointer, size);
      return NULL, -1, -1;
    }

    method Search(pointer: Pointer) returns (found: Pointer, index: int, indexInsert: int)
      requires Valid()
      ensures Hit(index, indexInsert)
              == if Items() == [] then Hit(-1, -1) else ArrayListSpec.Search(c, Items(), pointer)
      ensures found == if 0 <= index < |Items()| then Items()[index] else NULL
    {
      if size == 0 { return NULL, -1, -1; }
      if c.sorted {
        found, index, indexInsert := BinarySearch(pointer);
      } else {
        found, index, indexInsert := StandardSearch(pointer);
      }
    }

    /** The shift of a removal: the next elements move down, the last slot is cleared, and
        slots may be given back. */
    method CloseGap(index: nat)
      requires Shape() && index < size
      modifies this`data, this`sizeAlloc, this`size, this`copied, data
      ensures Shape() && Items() == old(Items())[..index] + old(Items())[index + 1..]
      ensures sizeAlloc == ShrinkTo(old(size), old(sizeAlloc), c.allocMin)
      ensures copied == old(copied) + (if sizeAlloc != old(sizeAlloc) then sizeAlloc else 0)
      ensures data == old(data) || data == null || fresh(data)
    {
      hide ShrinkTo;
      ShiftDown(index);
      ghost var next := data[..size - 1];
      Shrink();
      size := size - 1;
      assert Items() == next;
    }

    method ShiftDown(index: nat)
      requires Shape() && index < size
      modifies data
      ensures data[..size - 1] == old(Items())[..index] + old(Items())[index + 1..]
      ensures forall i :: size - 1 <= i < sizeAlloc ==> data[i] == NULL
    {
      ghost var was := Items();
      forall i | index <= i < size - 1 { data[i] := data[i + 1]; }
      data[size - 1] := NULL;
      ItemsRemoved(was, data[..size - 1], index);
    }

    /** Hands one element to the free callback, if there is one. */
    method ReleaseOne(index: nat)
      requires Shape() && index < size
      modifies this`freed
      ensures freed == old(freed) + (if c.hasFree then [Items()[index]] else [])
    {
      if c.hasFree { freed := freed + [data[index]]; }
    }

    /** Removes the element at `index`; an index outside the list is refused. */
    method Remove(index: int) returns (removed: int)
      requires Valid()
      modifies this, data
      ensures Valid() && state == Step(c, old(state), ArrayListSpec.Remove(index))
      ensures 0 <= index < old(size) ==>
                && Items() == old(Items())[..index] + old(Items())[index + 1..]
                && freed == old(freed) + (if c.hasFree then [old(Items())[index]] else [])
      ensures !(0 <= index < old(size)) ==> Items() == old(Items()) && freed == old(freed)
      ensures removed == if 0 <= index < old(size) then index else -1
      ensures size == if 0 <= index < old(size) then old(size) - 1 else old(size)
      ensures data == old(data) || data == null || fresh(data)
    {
      hide Sound, ShrinkTo, RemoveAt;
      if index < 0 || index >= size { return -1; }
      ghost var next := RemoveAt(c, state, index);
      RemoveSound(c, state, index);
      Removed(c, state, index);
      ReleaseOne(index);
      CloseGap(index);
      state := next;
      return index;
    }

    /** The shift of an insertion: room is made, the next elements move up. */
    method OpenGap(at: nat, pointer: Pointer)
      requires Shape() && at <= size
      modifies this`data, this`sizeAlloc, this`size, this`copied, data
      ensures Shape() && Items() == old(Items())[..at] + [pointer] + old(Items())[at..]
      ensures sizeAlloc == GrowTo(old(size), old(sizeAlloc))
      ensures copied == old(copied) + (if sizeAlloc != old(sizeAlloc) then old(sizeAlloc) else 0)
      ensures data == old(data) || fresh(data)
    {
      hide GrowTo;
      Grow();
      ShiftUp(at, pointer);
      size := size + 1;
    }

    method ShiftUp(at: nat, pointer: Pointer)
      requires Shape() && at <= size < sizeAlloc
      modifies data
      ensures data[..size + 1] == old(Items())[..at] + [pointer] + old(Items())[at..]
      ensures forall i :: size < i < sizeAlloc ==> data[i] == NULL
    {
      ghost var was := Items();
      forall i | at < i <= size { data[i] := data[i - 1]; }
      data[at] := pointer;
      ItemsInserted(was, data[..size + 1], at, pointer);
    }

    /** Without duplicates in a sorted list: remove at `at` while the element equals `pointer`. */
    method RemoveEqualRun(at: nat, pointer: Pointer)
      requires Valid()
      modifies this, data
      ensures Valid() && state == RemoveRun(c, old(state), at, pointer)
      ensures data == old(data) || data == null || fresh(data)
    {
      hide Sound, RemoveAt;
      ghost var target := RemoveRun(c, state, at, pointer);
      while at < size && c.cmp(data[at], pointer) == 0
        invariant Valid() && RemoveRun(c, state, at, pointer) == target
        invariant data == old(data) || data == null || fresh(data)
        decreases size
      {
        var _ := Remove(at);
      }
    }

    /** Without duplicates in an unsorted list: remove every element equal to `pointer`. */
    method RemoveEqualAll(pointer: Pointer)
      requires Valid()
      modifies this, data
      ensures Valid() && state == RemoveMatches(c, old(state), 0, pointer)
      ensures data == old(data) || data == null || fresh(data)
    {
      hide Sound, RemoveAt;
      ghost var target := RemoveMatches(c, state, 0, pointer);
      var i := 0;
      while i < size
        invariant Valid() && 0 <= i <= size && RemoveMatches(c, state, i, pointer) == target
        invariant data == old(data) || data == null || fresh(data)
        decreases size - i
      {
        if c.cmp(data[i], pointer) == 0 {
          var _ := Remove(i);
        } else {
          i := i + 1;
        }
      }
    }

    /** Where the new element goes, after the removals it asks for. */
    method Locate(index: int, pointer: Pointer) returns (at: nat)
      requires Valid()
      modifies this, data
      ensures Valid() && at <= |Items()|
      ensures var (st1, wanted) := Prepare(c, old(state), index, pointer);
              state == st1 && at == Clamp(wanted, |st1.items|)
      ensures data == old(data) || data == null || fresh(data)
    {
      hide Sound, RemoveRun, RemoveMatches, ArrayListSpec.Search;
      var wanted := index;
      if c.sorted {
        var found, hit, place := Search(pointer);
        if hit >= 0 && !c.allowDuplicates {
          wanted := hit;
          RemoveEqualRun(hit, pointer);
        } else {
          wanted := place;
        }
      } else if !c.allowDuplicates {
        RemoveEqualAll(pointer);
      }
      at := if wanted < 0 || wanted > size then size else wanted;
    }

    /** Inserts at `index`, or where the order wants it; without duplicates the elements equal
        to the new one are removed first. */
    method Insert(index: int, pointer: Pointer) returns (at: int)
      requires Valid()
      modifies this, data
      ensures Valid() && state == Step(c, old(state), ArrayListSpec.Insert(index, pointer))
      ensures IsInserted(c, old(Items()), index, pointer, Items())
      ensures 0 <= at < |Items()| && Items()[at] == pointer
      ensures data == old(data) || fresh(data)
    {
      hide Sound, Prepare, GrowTo, DoInsert, Place, Clamp, IsInserted;
      ghost var state0 := state;
      ghost var next := DoInsert(c, state, index, pointer);
      DoInsertIs(c, state, index, pointer);
      InsertSound(c, state, index, pointer);
      at := Locate(index, pointer);
      OpenGap(at, pointer);
      InsertedItems(c, state0, index, pointer);
      state := next;
    }

    method Add(pointer: Pointer) returns (at: int)
      requires Valid()
      modifies this, data
      ensures Valid() && state == Step(c, old(state), ArrayListSpec.Insert(-1, pointer))
      ensures 0 <= at < |Items()| && Items()[at] == pointer
      ensures data == old(data) || fresh(data)
    {
      at := Insert(-1, pointer);
    }

    method ResetSlots()
      requires Shape() && (c.allocMin > 0 ==> sizeAlloc > 0)
      modifies this`data, this`sizeAlloc, this`size, data
      ensures Shape() && size == 0 && sizeAlloc == c.allocMin
      ensures data == old(data) || data == null || fresh(data)
    {
      if data != null && sizeAlloc != c.allocMin {
        data := null;
        sizeAlloc := 0;
        if c.allocMin > 0 {
          data := new Pointer[c.allocMin](_ => NULL);
          sizeAlloc := c.allocMin;
        }
      } else if sizeAlloc > 0 {
        forall i | 0 <= i < sizeAlloc { data[i] := NULL; }
      }
      size := 0;
    }

    /** Removes every element and goes back to the initial allocation. */
    method Clear()
      requires Valid()
      modifies this, data
      ensures Valid() && state == Step(c, old(state), ArrayListSpec.Clear)
      ensures Items() == [] && freed == old(freed) + (if c.hasFree then old(Items()) else [])
      ensures data == old(data) || data == null || fresh(data)
    {
      hide Sound;
      ghost var next := DoClear(c, state);
      ClearSound(c, state);
      ReleaseAll();
      ResetSlots();
      state := next;
    }

    /** Hands every element to the free callback, if there is one. */
    method ReleaseAll()
      requires Shape()
      modifies this`freed
      ensures freed == old(freed) + (if c.hasFree then Items() else [])
    {
      if c.hasFree {
        var i := 0;
        while i < size
          invariant 0 <= i <= size
          invariant freed == old(freed) + Items()[..i]
        {
          freed := freed + [data[i]];
          i := i + 1;
        }
      }
    }

    /** Frees the list: with a free callback, everything ever stored has now been released. */
    method Free()
      requires Valid()
      modifies this
      ensures c.hasFree ==> state.stored == multiset(freed)
      ensures state == old(state) && old(freed) <= freed
    {
      ReleaseAll();
      data := null;
    }
  }

  lemma NotAfterBefore(cmp: Comparator, s: seq<Pointer>, x: Pointer, i: nat, m: nat)
    requires TotalPreorder(cmp) && Sorted(cmp, s) && i < m < |s| && cmp(x, s[m]) == 0 && cmp(x, s[i]) != 0
    ensures forall k :: 0 <= k <= i ==> cmp(x, s[k]) > 0
  {
    Equal(cmp, x, s[m]);
    Chain(cmp, s[i], s[m], x);
    assert Opposite(cmp, x, s[i]) && Opposite(cmp, s[i], x);
    AllBefore(cmp, s, x, i);
  }
}
