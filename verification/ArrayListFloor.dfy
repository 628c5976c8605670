/**
 Whether the initial size of an array list is a floor of its allocated size, in every mode.
 */
module ArrayListFloor {
  import opened ArrayListSpec
  import opened ArrayListOrder

  /** No pointer is removed by adding a later one. */
  ghost predicate Unequal(cmp: Comparator, xs: seq<Pointer>) {
    forall i, j :: 0 <= i < j < |xs| ==> cmp(xs[i], xs[j]) != 0
  }

  /** There are `n` elements that the list can hold at once. */
  ghost predicate CanHold(c: Settings, n: nat) {
    c.allowDuplicates || exists xs :: |xs| == n && Unequal(c.cmp, xs)
  }

  // --------------------------------------------------------- filling and draining

  lemma {:induction false} InsertSortedElements(cmp: Comparator, s: seq<Pointer>, x: Pointer)
    ensures multiset(InsertSorted(cmp, s, x)) == multiset(s) + multiset{x}
  {
    if s != [] && cmp(x, s[0]) >= 0 {
      InsertSortedElements(cmp, s[1..], x);
      assert s == [s[0]] + s[1..];
    }
  }

  lemma SameSize(a: seq<Pointer>, b: seq<Pointer>)
    requires multiset(a) == multiset(b)
    ensures |a| == |b|
  {
    assert |multiset(a)| == |a| && |multiset(b)| == |b|;
  }

  /** Adding elements that do not remove each other keeps them all. */
  lemma {:induction false} AddAllKeeps(c: Settings, xs: seq<Pointer>)
    requires c.allowDuplicates || Unequal(c.cmp, xs)
    ensures multiset(AddAll(c, xs)) == multiset(xs) && |AddAll(c, xs)| == |xs|
  {
    if xs != [] {
      var n := |xs| - 1;
      var s, x := AddAll(c, xs[..n]), xs[n];
      AddAllKeeps(c, xs[..n]);
      assert xs == xs[..n] + [x];
      if !c.allowDuplicates {
        forall i | 0 <= i < |s| ensures c.cmp(s[i], x) != 0 {
          assert s[i] in multiset(s);
          assert s[i] in xs[..n];
        }
        WithoutNone(c.cmp, s, x);
      }
      InsertSortedElements(c.cmp, s, x);
      SameSize(AddAll(c, xs), xs);
    }
  }

  lemma {:induction false} RemoveRunKeepsAlloc(c: Settings, st: State, i: nat, x: Pointer)
    requires st.alloc <= c.allocMin
    ensures RemoveRun(c, st, i, x).alloc == st.alloc
    decreases |st.items|
  {
    if i < |st.items| && c.cmp(st.items[i], x) == 0 { RemoveRunKeepsAlloc(c, RemoveAt(c, st, i), i, x); }
  }

  lemma {:induction false} RemoveMatchesKeepsAlloc(c: Settings, st: State, i: nat, x: Pointer)
    requires st.alloc <= c.allocMin && i <= |st.items|
    ensures RemoveMatches(c, st, i, x).alloc == st.alloc
    decreases |st.items| - i
  {
    if i < |st.items| {
      if c.cmp(st.items[i], x) == 0 {
        RemoveMatchesKeepsAlloc(c, RemoveAt(c, st, i), i, x);
      } else {
        RemoveMatchesKeepsAlloc(c, st, i + 1, x);
      }
    }
  }

  lemma PrepareKeepsAlloc(c: Settings, st: State, index: int, x: Pointer)
    requires st.alloc <= c.allocMin
    ensures Prepare(c, st, index, x).0.alloc == st.alloc
  {
    if c.sorted {
      var h := if st.items == [] then Hit(-1, -1) else Search(c, st.items, x);
      if h.index >= 0 { RemoveRunKeepsAlloc(c, st, h.index, x); }
    } else {
      RemoveMatchesKeepsAlloc(c, st, 0, x);
    }
  }

  /** An insertion reallocates only when the list outgrows its initial size. */
  lemma InsertAlloc(c: Settings, st: State, index: int, x: Pointer)
    requires st.alloc == c.allocMin
    ensures var r := DoInsert(c, st, index, x); r.alloc == GrowTo(|r.items| - 1, c.allocMin)
  {
    PrepareKeepsAlloc(c, st, index, x);
  }

  lemma {:induction false} FillAlloc(c: Settings, xs: seq<Pointer>)
    requires c.sorted ==> TotalPreorder(c.cmp)
    requires (c.allowDuplicates || Unequal(c.cmp, xs)) && |xs| <= c.allocMin + 1
    ensures var st := Run(c, Adds(xs));
            |st.items| == |xs| && st.alloc == if xs == [] then c.allocMin else GrowTo(|xs| - 1, c.allocMin)
  {
    RunAdds(c, xs);
    AddAllKeeps(c, xs);
    if xs != [] {
      var n := |xs| - 1;
      FillAlloc(c, xs[..n]);
      AddsSnoc(c, xs);
      InsertAlloc(c, Run(c, Adds(xs[..n])), -1, xs[n]);
    }
  }

  lemma {:induction false} DrainShrinks(c: Settings, cmds: seq<Command>) returns (more: seq<Command>)
    requires var st := Run(c, cmds);
             && |st.items| > 0 && 2 <= st.alloc && c.allocMin < st.alloc
             && st.alloc - st.alloc / 2 < c.allocMin
    ensures Run(c, more).alloc < c.allocMin
    decreases |Run(c, cmds).items|
  {
    more := cmds + [Remove(0)];
    RunSnoc(c, cmds, Remove(0));
    if Run(c, more).alloc >= c.allocMin { more := DrainShrinks(c, more); }
  }

  // ------------------------------------------------------- lists that cannot outgrow it

  lemma {:induction false} WithoutCounts(cmp: Comparator, s: seq<Pointer>, x: Pointer, e: Pointer)
    ensures multiset(Without(cmp, s, x))[e] == if cmp(e, x) == 0 then 0 else multiset(s)[e]
  {
    if s != [] {
      WithoutCounts(cmp, s[1..], x, e);
      assert s == [s[0]] + s[1..];
    }
  }

  lemma {:induction false} WithoutKeepsUnequal(cmp: Comparator, s: seq<Pointer>, x: Pointer)
    requires Unequal(cmp, s)
    ensures Unequal(cmp, Without(cmp, s, x))
  {
    if s != [] {
      WithoutKeepsUnequal(cmp, s[1..], x);
      var w := Without(cmp, s[1..], x);
      forall i | 0 <= i < |w| ensures cmp(s[0], w[i]) != 0 {
        WithoutIn(cmp, s[1..], x, w[i]);
        var j :| 0 <= j < |s[1..]| && s[1..][j] == w[i];
        assert s[j + 1] == w[i];
      }
    }
  }

  lemma SameWithout(cmp: Comparator, a: seq<Pointer>, b: seq<Pointer>, x: Pointer)
    requires multiset(a) == multiset(b)
    ensures multiset(Without(cmp, a, x)) == multiset(Without(cmp, b, x))
  {
    hide Without;
    var v, w := Without(cmp, a, x), Without(cmp, b, x);
    forall e ensures multiset(v)[e] == multiset(w)[e] {
      WithoutCounts(cmp, a, x, e);
      WithoutCounts(cmp, b, x, e);
    }
  }

  lemma InsertedItems(c: Settings, st: State, index: int, x: Pointer)
    requires !c.sorted && !c.allowDuplicates
    ensures multiset(DoInsert(c, st, index, x).items) == multiset(Without(c.cmp, st.items, x)) + multiset{x}
  {
    hide RemoveMatches, Without;
    var w := Without(c.cmp, st.items, x);
    RemoveMatchesItems(c, st, [], st.items, x);
    assert [] + st.items == st.items && [] + w == w;
    assert w == w[..Clamp(index, |w|)] + w[Clamp(index, |w|)..];
  }

  /** The elements of an unsorted list without duplicates, in the order in which they came. */
  lemma InsertWitness(c: Settings, st: State, ys: seq<Pointer>, index: int, x: Pointer) returns (zs: seq<Pointer>)
    requires !c.sorted && !c.allowDuplicates && Unequal(c.cmp, ys) && multiset(ys) == multiset(st.items)
    ensures Unequal(c.cmp, zs) && multiset(zs) == multiset(DoInsert(c, st, index, x).items)
  {
    hide DoInsert, Without;
    InsertedItems(c, st, index, x);
    SameWithout(c.cmp, ys, st.items, x);
    var v := Without(c.cmp, ys, x);
    zs := v + [x];
    WithoutKeepsUnequal(c.cmp, ys, x);
    forall j | 0 <= j < |v| ensures c.cmp(v[j], x) != 0 { WithoutIn(c.cmp, ys, x, v[j]); }
  }

  lemma Cancel(a: multiset<Pointer>, b: multiset<Pointer>, e: Pointer)
    requires a + multiset{e} == b + multiset{e}
    ensures a == b
  {
    assert a == a + multiset{e} - multiset{e};
  }

  lemma CutOut(a: seq<Pointer>, k: nat, b: seq<Pointer>, i: nat)
    requires k < |a| && i < |b| && a[k] == b[i] && multiset(a) == multiset(b)
    ensures multiset(a[..k] + a[k + 1..]) == multiset(b[..i] + b[i + 1..])
  {
    SplitMultiset(a, k);
    SplitMultiset(b, i);
    Cancel(multiset(a[..k] + a[k + 1..]), multiset(b[..i] + b[i + 1..]), a[k]);
  }

  lemma CutKeepsUnequal(cmp: Comparator, s: seq<Pointer>, k: nat)
    requires Unequal(cmp, s) && k < |s|
    ensures Unequal(cmp, s[..k] + s[k + 1..])
  {
    var r := s[..k] + s[k + 1..];
    assert forall j :: 0 <= j < |r| ==> r[j] == s[if j < k then j else j + 1];
  }

  lemma RemoveWitness(c: Settings, st: State, ys: seq<Pointer>, i: nat) returns (zs: seq<Pointer>)
    requires Unequal(c.cmp, ys) && multiset(ys) == multiset(st.items) && i < |st.items|
    ensures Unequal(c.cmp, zs) && multiset(zs) == multiset(RemoveAt(c, st, i).items)
  {
    var e := st.items[i];
    assert e in multiset(ys) by { assert e in multiset(st.items); }
    var k :| 0 <= k < |ys| && ys[k] == e;
    zs := ys[..k] + ys[k + 1..];
    CutKeepsUnequal(c.cmp, ys, k);
    CutOut(ys, k, st.items, i);
  }

  lemma {:induction false} RunWitness(c: Settings, cmds: seq<Command>) returns (ys: seq<Pointer>)
    requires !c.allowDuplicates && (c.sorted ==> TotalPreorder(c.cmp))
    ensures Unequal(c.cmp, ys) && multiset(ys) == multiset(Run(c, cmds).items)
  {
    if c.sorted {
      AlwaysOrdered(c, cmds);
      ys := Run(c, cmds).items;
    } else if cmds == [] {
      ys := [];
    } else {
      var before := Run(c, cmds[..|cmds| - 1]);
      ys := RunWitness(c, cmds[..|cmds| - 1]);
      match cmds[|cmds| - 1]
      case Insert(index, x) => ys := InsertWitness(c, before, ys, index, x);
      case Remove(i) => if 0 <= i < |before.items| { ys := RemoveWitness(c, before, ys, i); }
      case Clear => ys := [];
    }
  }

  /** A list never holds more than it can. */
  lemma SizeIsBounded(c: Settings, cmds: seq<Command>, n: nat)
    requires c.sorted ==> TotalPreorder(c.cmp)
    requires !CanHold(c, n + 1)
    ensures |Run(c, cmds).items| <= n
  {
    var ys := RunWitness(c, cmds);
    SameSize(ys, Run(c, cmds).items);
    if |ys| > n {
      var xs := ys[..n + 1];
      assert |xs| == n + 1 && Unequal(c.cmp, xs);
    }
  }

  /** While it does not outgrow its initial size, a list is never reallocated. */
  lemma {:induction false} AllocStays(c: Settings, cmds: seq<Command>)
    requires c.sorted ==> TotalPreorder(c.cmp)
    requires !CanHold(c, c.allocMin + 1)
    ensures Run(c, cmds).alloc == c.allocMin
  {
    if cmds != [] {
      var before := Run(c, cmds[..|cmds| - 1]);
      AllocStays(c, cmds[..|cmds| - 1]);
      SizeIsBounded(c, cmds, c.allocMin);
      if cmds[|cmds| - 1].Insert? { InsertAlloc(c, before, cmds[|cmds| - 1].index, cmds[|cmds| - 1].pointer); }
    }
  }

  // ----------------------------------------------------------------------- the condition

  /** Over all runs, in every mode, the allocated size never falls below its initial value exactly
      when that value is at most 2, or the list can never outgrow it.  A list that can holds one
      element too many, grows by half, and gives half back when it is drained. */
  lemma InitialSizeIsFloorIff(c: Settings)
    requires c.sorted ==> TotalPreorder(c.cmp)
    ensures (forall cmds :: Run(c, cmds).alloc >= c.allocMin) <==> c.allocMin <= 2 || !CanHold(c, c.allocMin + 1)
  {
    if c.allocMin <= 2 {
      forall cmds ensures Run(c, cmds).alloc >= c.allocMin { RunBooks(c, cmds); }
    } else if CanHold(c, c.allocMin + 1) {
      var n := c.allocMin + 1;
      var xs: seq<Pointer> := seq(n, _ => NULL);
      if !c.allowDuplicates { xs :| |xs| == n && Unequal(c.cmp, xs); }
      FillAlloc(c, xs);
      var more := DrainShrinks(c, Adds(xs));
      assert !(Run(c, more).alloc >= c.allocMin);
    } else {
      forall cmds ensures Run(c, cmds).alloc >= c.allocMin { AllocStays(c, cmds); }
    }
  }
}
