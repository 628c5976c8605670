/**
 What the four modes of the array list keep over whole runs: which elements are in the
 list, and in which order.
 */
module ArrayListOrder {
  import opened ArrayListSpec

  /** The elements of `s` equal to `x`, in order. */
  function ClassOf(cmp: Comparator, s: seq<Pointer>, x: Pointer): seq<Pointer> {
    if s == [] then []
    else if cmp(s[0], x) == 0 then [s[0]] + ClassOf(cmp, s[1..], x)
    else ClassOf(cmp, s[1..], x)
  }

  /** The elements of `s` different from `x`, in order. */
  function Without(cmp: Comparator, s: seq<Pointer>, x: Pointer): seq<Pointer> {
    if s == [] then []
    else if cmp(s[0], x) == 0 then Without(cmp, s[1..], x)
    else [s[0]] + Without(cmp, s[1..], x)
  }

  function LastOnly(s: seq<Pointer>): seq<Pointer> { if s == [] then [] else [s[|s| - 1]] }

  lemma {:induction false} ClassOfAppend(cmp: Comparator, a: seq<Pointer>, b: seq<Pointer>, x: Pointer)
    ensures ClassOf(cmp, a + b, x) == ClassOf(cmp, a, x) + ClassOf(cmp, b, x)
  {
    if a == [] { assert a + b == b; }
    else { ClassOfAppend(cmp, a[1..], b, x); assert (a + b)[1..] == a[1..] + b; }
  }

  lemma {:induction false} ClassOfIn(cmp: Comparator, s: seq<Pointer>, x: Pointer, e: Pointer)
    ensures e in ClassOf(cmp, s, x) <==> e in s && cmp(e, x) == 0
  {
    if s != [] { ClassOfIn(cmp, s[1..], x, e); }
  }

  lemma {:induction false} WithoutIn(cmp: Comparator, s: seq<Pointer>, x: Pointer, e: Pointer)
    ensures e in Without(cmp, s, x) <==> e in s && cmp(e, x) != 0
  {
    if s != [] { WithoutIn(cmp, s[1..], x, e); }
  }

  lemma {:induction false} WithoutNone(cmp: Comparator, s: seq<Pointer>, x: Pointer)
    requires forall i :: 0 <= i < |s| ==> cmp(s[i], x) != 0
    ensures Without(cmp, s, x) == s && ClassOf(cmp, s, x) == []
  {
    if s != [] { WithoutNone(cmp, s[1..], x); }
  }

  lemma Equal(cmp: Comparator, a: Pointer, b: Pointer)
    requires TotalPreorder(cmp)
    ensures cmp(a, a) == 0 && (cmp(a, b) == 0 <==> cmp(b, a) == 0)
    ensures cmp(a, b) <= 0 && cmp(b, a) <= 0 ==> cmp(a, b) == 0
  {
    assert Opposite(cmp, a, a) && Opposite(cmp, a, b) && Opposite(cmp, b, a);
  }

  lemma EqualChain(cmp: Comparator, a: Pointer, b: Pointer, c: Pointer)
    requires TotalPreorder(cmp) && cmp(a, b) == 0
    ensures cmp(a, c) == 0 <==> cmp(b, c) == 0
    ensures cmp(c, a) == 0 <==> cmp(c, b) == 0
  {
    Equal(cmp, a, b); Equal(cmp, a, c); Equal(cmp, b, c); Equal(cmp, c, a); Equal(cmp, c, b);
    if cmp(a, c) == 0 { Chain(cmp, b, a, c); Chain(cmp, c, a, b); }
    if cmp(b, c) == 0 { Chain(cmp, a, b, c); Chain(cmp, c, b, a); }
  }

  lemma HeadIsLeast(cmp: Comparator, s: seq<Pointer>, e: Pointer)
    requires TotalPreorder(cmp) && Sorted(cmp, s) && e in s
    ensures cmp(s[0], e) <= 0
  {
    Equal(cmp, s[0], s[0]);
  }

  lemma SameHead(cmp: Comparator, a: seq<Pointer>, b: seq<Pointer>)
    requires TotalPreorder(cmp) && Sorted(cmp, a) && Sorted(cmp, b) && a != [] && b != []
    requires forall x :: ClassOf(cmp, a, x) == ClassOf(cmp, b, x)
    ensures a[0] == b[0]
  {
    Equal(cmp, a[0], b[0]); Equal(cmp, b[0], a[0]);
    ClassOfIn(cmp, a, a[0], a[0]); ClassOfIn(cmp, b, a[0], a[0]);
    ClassOfIn(cmp, b, b[0], b[0]); ClassOfIn(cmp, a, b[0], b[0]);
    HeadIsLeast(cmp, a, b[0]);
    HeadIsLeast(cmp, b, a[0]);
    assert ClassOf(cmp, a, a[0])[0] == a[0] && ClassOf(cmp, b, a[0])[0] == b[0];
  }

  /** A sorted list is determined by its classes: sortedness and the order inside each
      class of equal elements leave no freedom. */
  lemma {:induction false} SortedByClasses(cmp: Comparator, a: seq<Pointer>, b: seq<Pointer>)
    requires TotalPreorder(cmp) && Sorted(cmp, a) && Sorted(cmp, b)
    requires forall x :: ClassOf(cmp, a, x) == ClassOf(cmp, b, x)
    ensures a == b
  {
    if a == [] {
      if b != [] { Equal(cmp, b[0], b[0]); ClassOfIn(cmp, b, b[0], b[0]); ClassOfIn(cmp, a, b[0], b[0]); }
    } else if b == [] {
      var e := a[0];
      Equal(cmp, e, e); ClassOfIn(cmp, a, e, e); ClassOfIn(cmp, b, e, e);
    } else {
      SameHead(cmp, a, b);
      forall x ensures ClassOf(cmp, a[1..], x) == ClassOf(cmp, b[1..], x) {
        assert ClassOf(cmp, a, x) == ClassOf(cmp, b, x);
        if cmp(a[0], x) == 0 {
          assert ClassOf(cmp, a[1..], x) == ClassOf(cmp, a, x)[1..];
          assert ClassOf(cmp, b[1..], x) == ClassOf(cmp, b, x)[1..];
        }
      }
      SortedByClasses(cmp, a[1..], b[1..]);
      assert a == [a[0]] + a[1..] && b == [b[0]] + b[1..];
    }
  }

  // ------------------------------------------------- what one insertion does

  /** Insertion sort's step: `x` goes after every leading element it does not precede. */
  function InsertSorted(cmp: Comparator, s: seq<Pointer>, x: Pointer): seq<Pointer> {
    if s == [] || cmp(x, s[0]) < 0 then [x] + s else [s[0]] + InsertSorted(cmp, s[1..], x)
  }

  lemma {:induction false} InsertSortedAt(cmp: Comparator, s: seq<Pointer>, x: Pointer, p: nat)
    requires p == Upper(cmp, s, x)
    ensures InsertSorted(cmp, s, x) == s[..p] + [x] + s[p..]
  {
    if s != [] && cmp(x, s[0]) >= 0 {
      InsertSortedAt(cmp, s[1..], x, p - 1);
      assert s[..p] == [s[0]] + s[1..][..p - 1] && s[p..] == s[1..][p - 1..];
    }
  }

  lemma {:induction false} InsertSortedClass(cmp: Comparator, s: seq<Pointer>, x: Pointer, y: Pointer)
    requires TotalPreorder(cmp) && Sorted(cmp, s)
    ensures ClassOf(cmp, InsertSorted(cmp, s, x), y)
            == ClassOf(cmp, s, y) + (if cmp(x, y) == 0 then [x] else [])
  {
    if s == [] {
    } else if cmp(x, s[0]) < 0 {
      ClassOfAppend(cmp, [x], s, y);
      if cmp(x, y) == 0 {
        forall i | 0 <= i < |s| ensures cmp(s[i], y) != 0 {
          if i > 0 { Chain(cmp, x, s[0], s[i]); }
          EqualChain(cmp, x, y, s[i]); Equal(cmp, x, s[i]);
        }
        WithoutNone(cmp, s, y);
      }
    } else {
      InsertSortedClass(cmp, s[1..], x, y);
      assert InsertSorted(cmp, s, x)[1..] == InsertSorted(cmp, s[1..], x);
    }
  }

  lemma InsertSortedOrder(cmp: Comparator, s: seq<Pointer>, x: Pointer)
    requires TotalPreorder(cmp) && Sorted(cmp, s)
    ensures Sorted(cmp, InsertSorted(cmp, s, x))
  {
    var p := Upper(cmp, s, x);
    InsertSortedAt(cmp, s, x, p);
    FitsBetween(cmp, s, x, p);
  }

  lemma {:induction false} InsertSortedStrict(cmp: Comparator, s: seq<Pointer>, x: Pointer)
    requires TotalPreorder(cmp) && StrictlySorted(cmp, s) && forall i :: 0 <= i < |s| ==> cmp(s[i], x) != 0
    ensures StrictlySorted(cmp, InsertSorted(cmp, s, x))
    ensures forall e :: e in InsertSorted(cmp, s, x) ==> e == x || e in s
  {
    if s == [] {
    } else if cmp(x, s[0]) < 0 {
      forall i | 0 <= i < |s| ensures cmp(x, s[i]) < 0 { if i > 0 { Chain(cmp, x, s[0], s[i]); } }
    } else {
      InsertSortedStrict(cmp, s[1..], x);
      Equal(cmp, s[0], x);
      assert Opposite(cmp, s[0], x) && Opposite(cmp, x, s[0]);
      var t := InsertSorted(cmp, s[1..], x);
      forall i | 0 <= i < |t| ensures cmp(s[0], t[i]) < 0 { assert t[i] in t; }
    }
  }

  lemma {:induction false} WithoutKeepsStrict(cmp: Comparator, s: seq<Pointer>, x: Pointer)
    requires StrictlySorted(cmp, s)
    ensures StrictlySorted(cmp, Without(cmp, s, x))
  {
    if s != [] {
      WithoutKeepsStrict(cmp, s[1..], x);
      var w := Without(cmp, s[1..], x);
      forall i | 0 <= i < |w| ensures cmp(s[0], w[i]) < 0 { WithoutIn(cmp, s[1..], x, w[i]); }
    }
  }

  ghost predicate Ordered(c: Settings, s: seq<Pointer>) {
    c.sorted && TotalPreorder(c.cmp) && if c.allowDuplicates then Sorted(c.cmp, s) else StrictlySorted(c.cmp, s)
  }

  lemma {:induction false} WithoutOne(cmp: Comparator, s: seq<Pointer>, x: Pointer, k: nat)
    requires k < |s| && forall i :: 0 <= i < |s| ==> (cmp(s[i], x) == 0 <==> i == k)
    ensures Without(cmp, s, x) == s[..k] + s[k + 1..]
  {
    if k == 0 {
      WithoutNone(cmp, s[1..], x);
    } else {
      WithoutOne(cmp, s[1..], x, k - 1);
      assert s[..k] == [s[0]] + s[1..][..k - 1];
    }
  }

  lemma UpperIs(cmp: Comparator, a: seq<Pointer>, b: seq<Pointer>, x: Pointer)
    requires forall i :: 0 <= i < |a| ==> cmp(x, a[i]) >= 0
    requires b != [] ==> cmp(x, b[0]) < 0
    ensures Upper(cmp, a + b, x) == |a|
  {
    if b != [] { assert (a + b)[|a|] == b[0]; }
    assert forall i :: 0 <= i < |a| ==> (a + b)[i] == a[i];
  }

  /** Dropping the one element equal to `x` leaves its place as the insertion point. */
  lemma RemoveHit(cmp: Comparator, s: seq<Pointer>, x: Pointer, lo: nat)
    requires TotalPreorder(cmp) && StrictlySorted(cmp, s) && lo == Lower(cmp, s, x) < Upper(cmp, s, x)
    ensures var w := s[..lo] + s[lo + 1..];
            && Upper(cmp, w, x) == lo && Without(cmp, s, x) == w
            && (lo < |w| ==> cmp(w[lo], x) != 0)
  {
    SortedSplit(cmp, s, x);
    if lo + 1 < Upper(cmp, s, x) { EqualChain(cmp, s[lo], x, s[lo + 1]); }
    WithoutOne(cmp, s, x, lo);
    UpperIs(cmp, s[..lo], s[lo + 1..], x);
  }

  lemma PrepareSorted(c: Settings, st: State, index: int, x: Pointer)
    requires Ordered(c, st.items)
    ensures var w := if c.allowDuplicates then st.items else Without(c.cmp, st.items, x);
            var (st1, at) := Prepare(c, st, index, x);
            st1.items == w && Clamp(at, |w|) == Upper(c.cmp, w, x)
  {
    var s := st.items;
    var lo, hi := Lower(c.cmp, s, x), Upper(c.cmp, s, x);
    SortedSplit(c.cmp, s, x);
    if !c.allowDuplicates && lo < hi {
      RemoveHit(c.cmp, s, x, lo);
      var st1 := RemoveAt(c, st, lo);
      assert RemoveRun(c, st1, lo, x) == st1;
      assert RemoveRun(c, st, lo, x) == st1 by { Equal(c.cmp, s[lo], x); }
    } else if !c.allowDuplicates {
      WithoutNone(c.cmp, s, x);
    }
  }

  /** A sorted insertion drops the equal element when duplicates are forbidden and then
      puts the new one after every element it does not precede. */
  lemma SortedInsertItems(c: Settings, st: State, index: int, x: Pointer)
    requires Ordered(c, st.items)
    ensures DoInsert(c, st, index, x).items
            == InsertSorted(c.cmp, if c.allowDuplicates then st.items else Without(c.cmp, st.items, x), x)
  {
    PrepareSorted(c, st, index, x);
    var w := if c.allowDuplicates then st.items else Without(c.cmp, st.items, x);
    InsertSortedAt(c.cmp, w, x, Upper(c.cmp, w, x));
  }

  lemma InsertKeepsOrder(c: Settings, st: State, index: int, x: Pointer)
    requires Ordered(c, st.items)
    ensures Ordered(c, DoInsert(c, st, index, x).items)
  {
    SortedInsertItems(c, st, index, x);
    if c.allowDuplicates {
      InsertSortedOrder(c.cmp, st.items, x);
    } else {
      var w := Without(c.cmp, st.items, x);
      WithoutKeepsStrict(c.cmp, st.items, x);
      forall i | 0 <= i < |w| ensures c.cmp(w[i], x) != 0 { WithoutIn(c.cmp, st.items, x, w[i]); }
      InsertSortedStrict(c.cmp, w, x);
    }
  }

  /** In the sorted modes every reachable list is sorted, strictly when duplicates are
      forbidden, whatever the mix of insertions, removals and clears. */
  lemma {:induction false} AlwaysOrdered(c: Settings, cmds: seq<Command>)
    requires c.sorted && TotalPreorder(c.cmp)
    ensures Ordered(c, Run(c, cmds).items)
  {
    if cmds != [] {
      var before := Run(c, cmds[..|cmds| - 1]);
      AlwaysOrdered(c, cmds[..|cmds| - 1]);
      match cmds[|cmds| - 1]
      case Insert(index, x) => InsertKeepsOrder(c, before, index, x);
      case Remove(i) =>
      case Clear =>
    }
  }

  // ------------------------------------------------------ runs of additions

  function Adds(xs: seq<Pointer>): seq<Command> {
    seq(|xs|, i requires 0 <= i < |xs| => Insert(-1, xs[i]))
  }

  lemma AddsSnoc(c: Settings, xs: seq<Pointer>)
    requires xs != []
    ensures var n := |xs| - 1;
            Run(c, Adds(xs)) == DoInsert(c, Run(c, Adds(xs[..n])), -1, xs[n])
  {
    var n := |xs| - 1;
    assert Adds(xs)[..n] == Adds(xs[..n]);
  }

  /** The list after one addition. */
  function AddOne(c: Settings, s: seq<Pointer>, x: Pointer): seq<Pointer> {
    var w := if c.allowDuplicates then s else Without(c.cmp, s, x);
    if c.sorted then InsertSorted(c.cmp, w, x) else w + [x]
  }

  function AddAll(c: Settings, xs: seq<Pointer>): seq<Pointer> {
    if xs == [] then [] else AddOne(c, AddAll(c, xs[..|xs| - 1]), xs[|xs| - 1])
  }

  lemma RemoveAtItems(c: Settings, st: State, a: seq<Pointer>, b: seq<Pointer>)
    requires st.items == a + b && b != []
    ensures RemoveAt(c, st, |a|).items == a + b[1..]
  {
    hide ShrinkTo;
    assert (a + b)[..|a|] == a && (a + b)[|a| + 1..] == b[1..];
  }

  lemma {:induction false} RemoveMatchesItems(c: Settings, st: State, a: seq<Pointer>, b: seq<Pointer>, x: Pointer)
    requires st.items == a + b
    ensures RemoveMatches(c, st, |a|, x).items == a + Without(c.cmp, b, x)
    decreases |b|
  {
    hide RemoveAt;
    if b == [] {
    } else if c.cmp(b[0], x) == 0 {
      var r := RemoveAt(c, st, |a|);
      RemoveAtItems(c, st, a, b);
      RemoveMatchesItems(c, r, a, b[1..], x);
    } else {
      assert a + b == (a + [b[0]]) + b[1..];
      RemoveMatchesItems(c, st, a + [b[0]], b[1..], x);
    }
  }

  /** An unsorted insertion drops every equal element when duplicates are forbidden, and puts the new
      one at the index among those left, or at the end when there is no such place. */
  lemma UnsortedInsertItems(c: Settings, st: State, index: int, x: Pointer)
    requires !c.sorted
    ensures var w := if c.allowDuplicates then st.items else Without(c.cmp, st.items, x);
            DoInsert(c, st, index, x).items
            == if 0 <= index <= |w| then w[..index] + [x] + w[index..] else w + [x]
  {
    hide RemoveMatches, Without;
    if !c.allowDuplicates {
      var w := Without(c.cmp, st.items, x);
      RemoveMatchesItems(c, st, [], st.items, x);
      assert [] + st.items == st.items && [] + w == w;
    }
  }

  lemma AddItems(c: Settings, st: State, x: Pointer)
    requires c.sorted ==> Ordered(c, st.items)
    ensures DoInsert(c, st, -1, x).items == AddOne(c, st.items, x)
  {
    if c.sorted {
      SortedInsertItems(c, st, -1, x);
    } else if !c.allowDuplicates {
      RemoveMatchesItems(c, st, [], st.items, x);
    }
  }

  lemma {:induction false} RunAdds(c: Settings, xs: seq<Pointer>)
    requires c.sorted ==> TotalPreorder(c.cmp)
    ensures Run(c, Adds(xs)).items == AddAll(c, xs)
  {
    if xs != [] {
      var n := |xs| - 1;
      RunAdds(c, xs[..n]);
      if c.sorted { AlwaysOrdered(c, Adds(xs[..n])); }
      AddItems(c, Run(c, Adds(xs[..n])), xs[n]);
      AddsSnoc(c, xs);
    }
  }

  lemma {:induction false} ClassOfWithout(cmp: Comparator, s: seq<Pointer>, x: Pointer, y: Pointer)
    requires TotalPreorder(cmp)
    ensures ClassOf(cmp, Without(cmp, s, x), y) == if cmp(x, y) == 0 then [] else ClassOf(cmp, s, y)
  {
    if s != [] {
      var e := s[0];
      ClassOfWithout(cmp, s[1..], x, y);
      ClassOfAppend(cmp, if cmp(e, x) == 0 then [] else [e], Without(cmp, s[1..], x), y);
      if cmp(e, x) == 0 { EqualChain(cmp, e, x, y); }
      if cmp(x, y) == 0 { EqualChain(cmp, x, y, e); }
    }
  }

  /** One addition extends the class of the new element and, without duplicates, leaves
      nothing else in it. */
  lemma AddOneClass(c: Settings, s: seq<Pointer>, x: Pointer, y: Pointer)
    requires Ordered(c, s)
    ensures ClassOf(c.cmp, AddOne(c, s, x), y)
            == if c.cmp(x, y) != 0 then ClassOf(c.cmp, s, y)
               else if c.allowDuplicates then ClassOf(c.cmp, s, y) + [x] else [x]
  {
    if c.allowDuplicates {
      InsertSortedClass(c.cmp, s, x, y);
    } else {
      WithoutKeepsStrict(c.cmp, s, x);
      InsertSortedClass(c.cmp, Without(c.cmp, s, x), x, y);
      ClassOfWithout(c.cmp, s, x, y);
    }
  }

  lemma ClassOfSnoc(cmp: Comparator, s: seq<Pointer>, x: Pointer, y: Pointer)
    ensures ClassOf(cmp, s + [x], y) == if cmp(x, y) == 0 then ClassOf(cmp, s, y) + [x] else ClassOf(cmp, s, y)
  {
    ClassOfAppend(cmp, s, [x], y);
  }

  lemma {:induction false} AddAllClass(c: Settings, xs: seq<Pointer>, y: Pointer)
    requires c.sorted && TotalPreorder(c.cmp)
    ensures ClassOf(c.cmp, AddAll(c, xs), y)
            == if c.allowDuplicates then ClassOf(c.cmp, xs, y) else LastOnly(ClassOf(c.cmp, xs, y))
  {
    hide Run, AddOne, Ordered, TotalPreorder;
    if xs != [] {
      var n := |xs| - 1;
      AddAllClass(c, xs[..n], y);
      AlwaysOrdered(c, Adds(xs[..n]));
      RunAdds(c, xs[..n]);
      AddOneClass(c, AddAll(c, xs[..n]), xs[n], y);
      ClassOfSnoc(c.cmp, xs[..n], xs[n], y);
      assert xs == xs[..n] + [xs[n]];
    }
  }

  /** Sorted with duplicates: the list is the stable sort of what was added.  It is sorted,
      and within each class of equal elements it keeps the order of addition; by
      `SortedByClasses` no other list does. */
  lemma AddsAreStableSort(c: Settings, xs: seq<Pointer>)
    requires c.sorted && c.allowDuplicates && TotalPreorder(c.cmp)
    ensures var r := Run(c, Adds(xs)).items;
            Sorted(c.cmp, r) && forall y :: ClassOf(c.cmp, r, y) == ClassOf(c.cmp, xs, y)
  {
    AlwaysOrdered(c, Adds(xs));
    RunAdds(c, xs);
    forall y ensures ClassOf(c.cmp, AddAll(c, xs), y) == ClassOf(c.cmp, xs, y) { AddAllClass(c, xs, y); }
  }

  /** Sorted without duplicates: a strictly sorted list holding exactly the last element
      added of each class. */
  lemma AddsKeepLastOfClass(c: Settings, xs: seq<Pointer>)
    requires c.sorted && !c.allowDuplicates && TotalPreorder(c.cmp)
    ensures var r := Run(c, Adds(xs)).items;
            StrictlySorted(c.cmp, r) && forall y :: ClassOf(c.cmp, r, y) == LastOnly(ClassOf(c.cmp, xs, y))
  {
    AlwaysOrdered(c, Adds(xs));
    RunAdds(c, xs);
    forall y ensures ClassOf(c.cmp, AddAll(c, xs), y) == LastOnly(ClassOf(c.cmp, xs, y)) { AddAllClass(c, xs, y); }
  }

  /** An element of `xs` survives in an unsorted list without duplicates when no later one
      equals it. */
  predicate LastOfItsKind(cmp: Comparator, xs: seq<Pointer>, i: nat)
    requires i < |xs|
  {
    forall j :: i < j < |xs| ==> cmp(xs[i], xs[j]) != 0
  }

  function Survivors(cmp: Comparator, xs: seq<Pointer>): seq<Pointer> {
    if xs == [] then []
    else if LastOfItsKind(cmp, xs, 0) then [xs[0]] + Survivors(cmp, xs[1..])
    else Survivors(cmp, xs[1..])
  }

  lemma {:induction false} SurvivorsSnoc(cmp: Comparator, xs: seq<Pointer>, x: Pointer)
    ensures Survivors(cmp, xs + [x]) == Without(cmp, Survivors(cmp, xs), x) + [x]
  {
    var t := xs + [x];
    if xs == [] {
      assert t[1..] == [];
    } else {
      SurvivorsSnoc(cmp, xs[1..], x);
      assert t[1..] == xs[1..] + [x];
      assert LastOfItsKind(cmp, t, 0) <==> LastOfItsKind(cmp, xs, 0) && cmp(xs[0], x) != 0 by {
        assert t[|xs|] == x;
        assert forall j :: 0 < j < |xs| ==> t[j] == xs[j];
      }
    }
  }

  lemma {:induction false} AddedSurvive(c: Settings, xs: seq<Pointer>)
    requires !c.sorted
    ensures AddAll(c, xs) == if c.allowDuplicates then xs else Survivors(c.cmp, xs)
  {
    if xs != [] {
      hide Survivors, Without;
      var n := |xs| - 1;
      AddedSurvive(c, xs[..n]);
      assert xs == xs[..n] + [xs[n]];
      if !c.allowDuplicates { SurvivorsSnoc(c.cmp, xs[..n], xs[n]); }
    }
  }

  /** Unsorted: with duplicates the list is what was added, in order; without, it is what was
      added minus every element that a later addition equals. */
  lemma UnsortedAdds(c: Settings, xs: seq<Pointer>)
    requires !c.sorted
    ensures Run(c, Adds(xs)).items == if c.allowDuplicates then xs else Survivors(c.cmp, xs)
  {
    hide Run, Adds, AddAll, Survivors;
    RunAdds(c, xs);
    AddedSurvive(c, xs);
  }
}
