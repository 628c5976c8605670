/**
 The array list as a transition system on values.  A state holds the elements, the
 number of allocated slots, and the books kept over a whole run: slots copied by
 reallocations, insertions and removals performed, pointers ever stored, and pointers
 handed to the free callback.  The class `ArrayList` refines every step.
 */
module ArrayListSpec {

  /** A `void *`: an address, 0 being NULL.  NULL may be stored as an element. */
  type Pointer = nat
  const NULL: Pointer := 0

  type Comparator = (Pointer, Pointer) -> int

  datatype Settings = Settings(cmp: Comparator, sorted: bool, allowDuplicates: bool, allocMin: nat, hasFree: bool)

  datatype State = State(items: seq<Pointer>, alloc: nat, copied: nat, ops: nat,
                         stored: multiset<Pointer>, freed: seq<Pointer>)

  datatype Command = Insert(index: int, pointer: Pointer) | Remove(at: int) | Clear

  ghost predicate Opposite(cmp: Comparator, a: Pointer, b: Pointer) {
    cmp(a, b) < 0 <==> cmp(b, a) > 0
  }

  ghost predicate Transitive(cmp: Comparator, a: Pointer, b: Pointer, c: Pointer) {
    cmp(a, b) <= 0 && cmp(b, c) <= 0 ==> cmp(a, c) <= 0
  }

  ghost predicate TotalPreorder(cmp: Comparator) {
    && (forall a, b :: Opposite(cmp, a, b))
    && (forall a, b, c :: Transitive(cmp, a, b, c))
  }

  /** Chaining two comparisons: the result is strict when one of them is. */
  lemma Chain(cmp: Comparator, a: Pointer, b: Pointer, c: Pointer)
    requires TotalPreorder(cmp) && cmp(a, b) <= 0 && cmp(b, c) <= 0
    ensures cmp(a, c) <= 0
    ensures cmp(a, b) < 0 || cmp(b, c) < 0 ==> cmp(a, c) < 0
  {
    assert Opposite(cmp, a, b) && Opposite(cmp, b, a) && Opposite(cmp, b, c) && Opposite(cmp, c, b)
           && Opposite(cmp, a, c) && Opposite(cmp, c, a);
    assert Transitive(cmp, a, b, c) && Transitive(cmp, b, c, a) && Transitive(cmp, c, a, b);
  }

  ghost predicate Sorted(cmp: Comparator, s: seq<Pointer>) {
    forall i, j :: 0 <= i < j < |s| ==> cmp(s[i], s[j]) <= 0
  }

  ghost predicate StrictlySorted(cmp: Comparator, s: seq<Pointer>) {
    forall i, j :: 0 <= i < j < |s| ==> cmp(s[i], s[j]) < 0
  }

  // -------------------------------------------------------- capacity arithmetic

  function Max(a: int, b: int): int { if a < b then b else a }

  function GrowTo(size: nat, alloc: nat): nat {
    if size + 1 <= alloc then alloc else if alloc < 2 then 2 else alloc + alloc / 2
  }

  /** `size` still counts the element being removed. */
  function ShrinkTo(size: nat, alloc: nat, allocMin: nat): nat {
    if alloc == 0 || alloc <= allocMin then alloc
    else if alloc == 1 then 0
    else if size - 1 >= alloc - alloc / 2 then alloc
    else alloc - alloc / 2
  }

  // ------------------------------------------------------------------- searching

  /** The number of leading elements that `x` comes strictly after. */
  function Lower(cmp: Comparator, s: seq<Pointer>, x: Pointer): (n: nat)
    ensures n <= |s|
    ensures forall i :: 0 <= i < n ==> cmp(x, s[i]) > 0
    ensures n < |s| ==> cmp(x, s[n]) <= 0
  {
    if s == [] || cmp(x, s[0]) <= 0 then 0 else 1 + Lower(cmp, s[1..], x)
  }

  /** The number of leading elements that `x` does not come before. */
  function Upper(cmp: Comparator, s: seq<Pointer>, x: Pointer): (n: nat)
    ensures n <= |s|
    ensures forall i :: 0 <= i < n ==> cmp(x, s[i]) >= 0
    ensures n < |s| ==> cmp(x, s[n]) < 0
  {
    if s == [] || cmp(x, s[0]) < 0 then 0 else 1 + Upper(cmp, s[1..], x)
  }

  /** The first element equal to `x`, in the argument order of the linear search. */
  function FirstEqual(cmp: Comparator, s: seq<Pointer>, x: Pointer): (i: int)
    ensures -1 <= i < |s|
    ensures i >= 0 ==> cmp(s[i], x) == 0
    ensures forall k :: 0 <= k < (if i >= 0 then i else |s|) ==> cmp(s[k], x) != 0
  {
    if s == [] then -1
    else if cmp(s[0], x) == 0 then 0
    else var i := FirstEqual(cmp, s[1..], x); if i < 0 then -1 else i + 1
  }

  datatype Hit = Hit(index: int, insertAt: int)

  /** What a search reports: the index of the element found or -1, and the index where
      it is to be inserted, -1 standing for the end of the list. */
  function Search(c: Settings, s: seq<Pointer>, x: Pointer): Hit {
    if !c.sorted then Hit(FirstEqual(c.cmp, s, x), -1)
    else
      var lo, hi := Lower(c.cmp, s, x), Upper(c.cmp, s, x);
      if lo < hi then Hit(lo, hi) else Hit(-1, if lo == |s| then -1 else lo)
  }

  ghost predicate FitsAt(cmp: Comparator, s: seq<Pointer>, x: Pointer, q: nat)
    requires q <= |s|
  {
    Sorted(cmp, s[..q] + [x] + s[q..])
  }

  lemma FitsBetween(cmp: Comparator, s: seq<Pointer>, x: Pointer, q: nat)
    requires q <= |s| && TotalPreorder(cmp) && Sorted(cmp, s)
    ensures FitsAt(cmp, s, x, q) <==> (q > 0 ==> cmp(x, s[q - 1]) >= 0) && (q < |s| ==> cmp(x, s[q]) <= 0)
  {
    var t := s[..q] + [x] + s[q..];
    if q > 0 { assert t[q - 1] == s[q - 1]; assert Opposite(cmp, s[q - 1], x) && Opposite(cmp, x, s[q - 1]); }
    if q < |s| { assert t[q + 1] == s[q]; }
    assert t[q] == x;
    if (q > 0 ==> cmp(x, s[q - 1]) >= 0) && (q < |s| ==> cmp(x, s[q]) <= 0) {
      forall i, j | 0 <= i < j < |t| ensures cmp(t[i], t[j]) <= 0 {
        if i == q {
          if q < j - 1 { Chain(cmp, x, s[q], s[j - 1]); }
        } else if j == q {
          if i < q - 1 { Chain(cmp, s[i], s[q - 1], x); }
        }
      }
    }
  }

  /** In a sorted list the elements before `Lower`, from there to `Upper` and from `Upper` on
      are the ones before, equal to and after `x`. */
  lemma SortedSplit(cmp: Comparator, s: seq<Pointer>, x: Pointer)
    requires TotalPreorder(cmp) && Sorted(cmp, s)
    ensures Lower(cmp, s, x) <= Upper(cmp, s, x)
    ensures forall i :: 0 <= i < Lower(cmp, s, x) ==> cmp(s[i], x) < 0
    ensures forall i :: Lower(cmp, s, x) <= i < Upper(cmp, s, x) ==> cmp(s[i], x) == 0 && cmp(x, s[i]) == 0
    ensures forall i :: Upper(cmp, s, x) <= i < |s| ==> cmp(s[i], x) > 0 && cmp(x, s[i]) < 0
  {
    var lo, hi := Lower(cmp, s, x), Upper(cmp, s, x);
    forall i | 0 <= i < |s| ensures cmp(x, s[i]) < 0 <==> cmp(s[i], x) > 0
                            ensures cmp(x, s[i]) > 0 <==> cmp(s[i], x) < 0 {
      assert Opposite(cmp, x, s[i]) && Opposite(cmp, s[i], x);
    }
    forall i | lo <= i < |s| ensures cmp(x, s[i]) <= 0 { if lo < i { Chain(cmp, x, s[lo], s[i]); } }
    forall i | hi <= i < |s| ensures cmp(x, s[i]) < 0 { if hi < i { Chain(cmp, x, s[hi], s[i]); } }
  }

  /** On a sorted list the sorted search is exact: it hits just when some element equals
      `x`, and then delimits the equal elements, agreeing with linear search. */
  lemma SearchHitIsExact(c: Settings, s: seq<Pointer>, x: Pointer)
    requires c.sorted && TotalPreorder(c.cmp) && Sorted(c.cmp, s)
    ensures var h := Search(c, s, x);
            && h.index == FirstEqual(c.cmp, s, x)
            && (h.index >= 0 ==>
                  && h.index < h.insertAt <= |s|
                  && forall i :: 0 <= i < |s| ==> (c.cmp(s[i], x) == 0 <==> h.index <= i < h.insertAt))
  {
    SortedSplit(c.cmp, s, x);
    var f := FirstEqual(c.cmp, s, x);
  }

  /** A miss names the only place where `x` keeps the order, -1 exactly for the end. */
  lemma SearchMissIsExact(c: Settings, s: seq<Pointer>, x: Pointer)
    requires c.sorted && TotalPreorder(c.cmp) && Sorted(c.cmp, s)
    requires Search(c, s, x).index == -1
    ensures var h := Search(c, s, x);
            var p := if h.insertAt == -1 then |s| else h.insertAt;
            && 0 <= p <= |s|
            && (h.insertAt == -1 <==> p == |s|)
            && forall q :: 0 <= q <= |s| ==> (FitsAt(c.cmp, s, x, q) <==> q == p)
  {
    SortedSplit(c.cmp, s, x);
    var lo := Lower(c.cmp, s, x);
    forall q | 0 <= q <= |s| ensures FitsAt(c.cmp, s, x, q) <==> q == lo {
      FitsBetween(c.cmp, s, x, q);
    }
  }

  // ----------------------------------------------------------------- transitions

  function RemoveAt(c: Settings, st: State, i: nat): State
    requires i < |st.items|
  {
    var n := ShrinkTo(|st.items|, st.alloc, c.allocMin);
    st.(items := st.items[..i] + st.items[i + 1..],
        alloc := n,
        copied := st.copied + (if n != st.alloc then n else 0),
        ops := st.ops + 1,
        freed := st.freed + (if c.hasFree then [st.items[i]] else []))
  }

  function Place(c: Settings, st: State, i: nat, x: Pointer): State
    requires i <= |st.items|
  {
    var n := GrowTo(|st.items|, st.alloc);
    st.(items := st.items[..i] + [x] + st.items[i..],
        alloc := n,
        copied := st.copied + (if n != st.alloc then st.alloc else 0),
        ops := st.ops + 1,
        stored := st.stored + multiset{x})
  }

  /** The loop of a sorted insert: remove at `i` as long as the element there equals `x`. */
  function RemoveRun(c: Settings, st: State, i: nat, x: Pointer): (r: State)
    ensures |r.items| <= |st.items|
    decreases |st.items|
  {
    if i < |st.items| && c.cmp(st.items[i], x) == 0 then RemoveRun(c, RemoveAt(c, st, i), i, x) else st
  }

  /** The loop of an unsorted insert: remove every element from `i` on that equals `x`. */
  function RemoveMatches(c: Settings, st: State, i: nat, x: Pointer): (r: State)
    requires i <= |st.items|
    decreases |st.items| - i
  {
    if i == |st.items| then st
    else if c.cmp(st.items[i], x) == 0 then RemoveMatches(c, RemoveAt(c, st, i), i, x)
    else RemoveMatches(c, st, i + 1, x)
  }

  /** The state in which the new element is placed, and the index asked for. */
  function Prepare(c: Settings, st: State, index: int, x: Pointer): (State, int) {
    if c.sorted then
      var h := if st.items == [] then Hit(-1, -1) else Search(c, st.items, x);
      if h.index >= 0 && !c.allowDuplicates then (RemoveRun(c, st, h.index, x), h.index) else (st, h.insertAt)
    else if !c.allowDuplicates then (RemoveMatches(c, st, 0, x), index)
    else (st, index)
  }

  /** A negative or too large index means the end of the list. */
  function Clamp(index: int, size: nat): (i: nat)
    ensures i <= size
  {
    if index < 0 || index > size then size else index
  }

  function DoInsert(c: Settings, st: State, index: int, x: Pointer): State {
    var (st1, at) := Prepare(c, st, index, x);
    Place(c, st1, Clamp(at, |st1.items|), x)
  }

  function DoClear(c: Settings, st: State): State {
    st.(items := [], alloc := c.allocMin,
        freed := st.freed + (if c.hasFree then st.items else []))
  }

  function Step(c: Settings, st: State, cmd: Command): State {
    match cmd
    case Insert(index, x) => DoInsert(c, st, index, x)
    case Remove(i) => if 0 <= i < |st.items| then RemoveAt(c, st, i) else st
    case Clear => DoClear(c, st)
  }

  function Initial(c: Settings): State {
    State([], c.allocMin, 0, 0, multiset{}, [])
  }

  function Run(c: Settings, cmds: seq<Command>): State {
    if cmds == [] then Initial(c) else Step(c, Run(c, cmds[..|cmds| - 1]), cmds[|cmds| - 1])
  }

  // ------------------------------------------- capacity, cost and ownership books

  /** The size that grows to this one, or to the next smaller size that comes from growing. */
  function Before(alloc: nat): nat { alloc / 3 * 2 + (if alloc % 3 == 0 then 0 else 1) }

  /** How often a list grows until it has that size. */
  function Growths(alloc: nat): nat {
    if alloc <= 2 then 0 else 1 + Growths(Before(alloc))
  }

  /** What insertions and removals have paid in advance, in halves of a slot.  At its initial size
      or below a list is not shrunk, so an empty list there has nothing to pay for.  Growing an odd
      size loses a half slot to rounding, which shrinking wins back. */
  function Potential(size: nat, alloc: nat, allocMin: nat): (p: nat) {
    var full, empty := 9 * size - 4 * alloc, if alloc <= allocMin then 0 else 8 * alloc - 9 * size;
    Max(Max(full, empty) - 2 * Growths(alloc), 0)
  }

  ghost predicate Capacity(size: nat, alloc: nat, allocMin: nat) {
    && size <= alloc <= Max(allocMin, Max(2 * size, 1))
    && (allocMin > 0 ==> alloc >= allocMin / 2 + 1)
  }

  ghost predicate Conserved(c: Settings, st: State) {
    if c.hasFree then st.stored == multiset(st.items) + multiset(st.freed) else st.freed == []
  }

  ghost predicate Books(c: Settings, st: State) {
    && Capacity(|st.items|, st.alloc, c.allocMin)
    && 2 * st.copied + Potential(|st.items|, st.alloc, c.allocMin) <= 9 * st.ops
    && Conserved(c, st)
  }

  lemma {:induction false} GrowthsMonotone(a: nat, b: nat)
    requires a <= b
    ensures Growths(a) <= Growths(b)
    decreases b
  {
    if a > 2 { GrowthsMonotone(Before(a), Before(b)); }
  }

  lemma {:induction false} GrowthsAreFew(a: nat)
    ensures Growths(a) <= a && (a >= 2 ==> Growths(a) <= a - 2)
  {
    if a > 2 { GrowthsAreFew(Before(a)); }
  }

  lemma GrowthsUp(a: nat)
    requires a >= 2
    ensures Growths(a + a / 2) == Growths(a) + 1
  {
    assert Before(a + a / 2) == a;
  }

  lemma GrowthsDown(a: nat)
    ensures Growths(a - a / 2) <= Growths(a) <= Growths(a - a / 2) + 2
  {
    GrowthsMonotone(a - a / 2, a);
    if a > 2 && Before(a) > 2 { GrowthsMonotone(Before(Before(a)), a - a / 2); }
  }

  /** One removal: its copying is paid by 9 half slots and the potential it releases. */
  lemma ShrinkPays(size: nat, alloc: nat, allocMin: nat)
    requires 0 < size && Capacity(size, alloc, allocMin)
    ensures var n := ShrinkTo(size, alloc, allocMin);
            && Capacity(size - 1, n, allocMin) && size <= Max(n, 1)
            && 2 * (if n != alloc then n else 0) + Potential(size - 1, n, allocMin)
               <= Potential(size, alloc, allocMin) + 9
  {
    hide Growths;
    GrowthsDown(alloc);
    GrowthsAreFew(alloc);
    GrowthsAreFew(0);
  }

  /** One insertion: its copying is paid by 9 half slots and the potential it releases. */
  lemma GrowPays(size: nat, alloc: nat, allocMin: nat)
    requires Capacity(size, alloc, allocMin)
    ensures var n := GrowTo(size, alloc);
            && Capacity(size + 1, n, allocMin)
            && 2 * (if n != alloc then alloc else 0) + Potential(size + 1, n, allocMin)
               <= Potential(size, alloc, allocMin) + 9
  {
    hide Growths;
    if alloc >= 2 { GrowthsUp(alloc); }
    GrowthsAreFew(alloc);
    GrowthsAreFew(2);
  }

  lemma SplitMultiset(s: seq<Pointer>, i: nat)
    requires i < |s|
    ensures multiset(s) == multiset(s[..i] + s[i + 1..]) + multiset{s[i]}
  {
    assert s == s[..i] + [s[i]] + s[i + 1..];
  }

  lemma RemoveAtBooks(c: Settings, st: State, i: nat)
    requires Books(c, st) && i < |st.items|
    ensures Books(c, RemoveAt(c, st, i))
  {
    hide ShrinkTo, Potential, Capacity;
    ShrinkPays(|st.items|, st.alloc, c.allocMin);
    assert Conserved(c, RemoveAt(c, st, i)) by { SplitMultiset(st.items, i); }
  }

  lemma PlaceBooks(c: Settings, st: State, i: nat, x: Pointer)
    requires Books(c, st) && i <= |st.items|
    ensures Books(c, Place(c, st, i, x))
  {
    hide GrowTo, Potential, Capacity;
    GrowPays(|st.items|, st.alloc, c.allocMin);
    var r := Place(c, st, i, x);
    assert Conserved(c, r) by {
      SplitMultiset(r.items, i);
      assert r.items[..i] + r.items[i + 1..] == st.items;
    }
  }

  lemma {:induction false} RemoveRunBooks(c: Settings, st: State, i: nat, x: Pointer)
    requires Books(c, st)
    ensures Books(c, RemoveRun(c, st, i, x))
    decreases |st.items|
  {
    if i < |st.items| && c.cmp(st.items[i], x) == 0 {
      RemoveAtBooks(c, st, i);
      RemoveRunBooks(c, RemoveAt(c, st, i), i, x);
    }
  }

  lemma {:induction false} RemoveMatchesBooks(c: Settings, st: State, i: nat, x: Pointer)
    requires Books(c, st) && i <= |st.items|
    ensures Books(c, RemoveMatches(c, st, i, x))
    decreases |st.items| - i
  {
    if i < |st.items| {
      if c.cmp(st.items[i], x) == 0 {
        RemoveAtBooks(c, st, i);
        RemoveMatchesBooks(c, RemoveAt(c, st, i), i, x);
      } else {
        RemoveMatchesBooks(c, st, i + 1, x);
      }
    }
  }

  lemma InsertBooks(c: Settings, st: State, index: int, x: Pointer)
    requires Books(c, st)
    ensures Books(c, DoInsert(c, st, index, x))
  {
    var (st1, at) := Prepare(c, st, index, x);
    assert Books(c, st1) by {
      if c.sorted {
        var h := if st.items == [] then Hit(-1, -1) else Search(c, st.items, x);
        if h.index >= 0 && !c.allowDuplicates { RemoveRunBooks(c, st, h.index, x); }
      } else if !c.allowDuplicates {
        RemoveMatchesBooks(c, st, 0, x);
      }
    }
    PlaceBooks(c, st1, Clamp(at, |st1.items|), x);
  }

  lemma ClearBooks(c: Settings, st: State)
    requires Books(c, st)
    ensures Books(c, DoClear(c, st))
  {
    assert Conserved(c, DoClear(c, st));
  }

  lemma StepBooks(c: Settings, st: State, cmd: Command)
    requires Books(c, st)
    ensures Books(c, Step(c, st, cmd))
  {
    match cmd
    case Insert(index, x) => InsertBooks(c, st, index, x);
    case Remove(i) => if 0 <= i < |st.items| { RemoveAtBooks(c, st, i); }
    case Clear => ClearBooks(c, st);
  }

  lemma {:induction false} RunBooks(c: Settings, cmds: seq<Command>)
    ensures Books(c, Run(c, cmds))
  {
    if cmds != [] {
      RunBooks(c, cmds[..|cmds| - 1]);
      StepBooks(c, Run(c, cmds[..|cmds| - 1]), cmds[|cmds| - 1]);
    }
  }

  /** Capacity in every reachable state.  The allocated size may fall below its initial
      value, but never below half of it. */
  lemma CapacityBounds(c: Settings, cmds: seq<Command>)
    ensures var st := Run(c, cmds);
            && |st.items| <= st.alloc <= Max(c.allocMin, Max(2 * |st.items|, 1))
            && (c.allocMin > 0 ==> st.alloc >= c.allocMin / 2 + 1)
            && Step(c, st, Clear).alloc == c.allocMin
  {
    RunBooks(c, cmds);
  }

  lemma RunSnoc(c: Settings, cmds: seq<Command>, cmd: Command)
    ensures Run(c, cmds + [cmd]) == Step(c, Run(c, cmds), cmd)
  {
    assert (cmds + [cmd])[..|cmds|] == cmds;
  }

  /** Amortised cost of a whole run: at most 9/2 slots are copied for each insertion and removal,
      whatever the initial size; clearing costs nothing. */
  lemma AmortisedCost(c: Settings, cmds: seq<Command>)
    ensures 2 * Run(c, cmds).copied <= 9 * Run(c, cmds).ops
  {
    RunBooks(c, cmds);
  }

  /** The pointers that a run stores. */
  function Stored(cmds: seq<Command>): multiset<Pointer> {
    if cmds == [] then multiset{}
    else
      var cmd := cmds[|cmds| - 1];
      Stored(cmds[..|cmds| - 1]) + if cmd.Insert? then multiset{cmd.pointer} else multiset{}
  }

  lemma {:induction false} RemoveRunStores(c: Settings, st: State, i: nat, x: Pointer)
    ensures RemoveRun(c, st, i, x).stored == st.stored
    decreases |st.items|
  {
    if i < |st.items| && c.cmp(st.items[i], x) == 0 { RemoveRunStores(c, RemoveAt(c, st, i), i, x); }
  }

  lemma {:induction false} RemoveMatchesStores(c: Settings, st: State, i: nat, x: Pointer)
    requires i <= |st.items|
    ensures RemoveMatches(c, st, i, x).stored == st.stored
    decreases |st.items| - i
  {
    if i < |st.items| {
      if c.cmp(st.items[i], x) == 0 {
        RemoveMatchesStores(c, RemoveAt(c, st, i), i, x);
      } else {
        RemoveMatchesStores(c, st, i + 1, x);
      }
    }
  }

  lemma {:induction false} RunStores(c: Settings, cmds: seq<Command>)
    ensures Run(c, cmds).stored == Stored(cmds)
  {
    if cmds != [] {
      var (st, cmd) := (Run(c, cmds[..|cmds| - 1]), cmds[|cmds| - 1]);
      RunStores(c, cmds[..|cmds| - 1]);
      if cmd.Insert? {
        var h := if st.items == [] then Hit(-1, -1) else Search(c, st.items, cmd.pointer);
        if h.index >= 0 { RemoveRunStores(c, st, h.index, cmd.pointer); }
        RemoveMatchesStores(c, st, 0, cmd.pointer);
      }
    }
  }

  /** Ownership over a whole run: with a free callback what was stored is exactly what is in the list
      and what was released, so a pointer stored once is in one of them; without a callback nothing
      is released. */
  lemma OwnershipConserved(c: Settings, cmds: seq<Command>)
    ensures var (st, stored) := (Run(c, cmds), Stored(cmds));
            if c.hasFree then
              && stored == multiset(st.items) + multiset(st.freed)
              && stored == multiset(st.freed + st.items)
              && forall p :: stored[p] == 1 ==> (p in st.items <==> p !in st.freed)
            else st.freed == []
  {
    RunBooks(c, cmds);
    RunStores(c, cmds);
  }
}
