/**
 The relative jumps of /buffer: +N and -N walk around the list of buffers, which is sorted
 by number.  Merged buffers share a number, hidden buffers are skipped.
 */
module BufferJump {
  import opened CString

  datatype Buffer = Buffer(number: int, hidden: bool, active: bool)

  ghost predicate SortedByNumber(bufs: seq<Buffer>) {
    forall i, j :: 0 <= i < j < |bufs| ==> bufs[i].number <= bufs[j].number
  }

  // --------------------------------------------------------------- the reference

  ghost predicate Ascending(v: seq<int>) {
    forall i, j :: 0 <= i < j < |v| ==> v[i] < v[j]
  }

  ghost predicate Shows(bufs: seq<Buffer>, x: int) {
    exists i :: 0 <= i < |bufs| && !bufs[i].hidden && bufs[i].number == x
  }

  /** `v` lists the distinct numbers of the visible buffers. */
  ghost predicate VisibleNumbers(bufs: seq<Buffer>, v: seq<int>) {
    Ascending(v) && forall x :: x in v <==> Shows(bufs, x)
  }

  function Above(v: seq<int>, c: int): seq<int> {
    if v == [] then [] else if v[0] > c then [v[0]] + Above(v[1..], c) else Above(v[1..], c)
  }

  function Below(v: seq<int>, c: int): seq<int> {
    if v == [] then [] else if v[0] < c then [v[0]] + Below(v[1..], c) else Below(v[1..], c)
  }

  /** The numbers other than `c` in cyclic order after `c`. */
  function Cyclic(v: seq<int>, c: int): seq<int> { Above(v, c) + Below(v, c) }

  function Reverse(v: seq<int>): seq<int> { seq(|v|, i requires 0 <= i < |v| => v[|v| - 1 - i]) }

  /** The `n`-th of a list, counted from 1. */
  function Nth(v: seq<int>, n: int): Option<int> {
    if 1 <= n <= |v| then Some(v[n - 1]) else None
  }

  // --------------------------------------------------------------------- the walk

  /** The numbers that the walk discovers: visible, not the current one, and different from
      the previous visible one. */
  function Discovered(walk: seq<Buffer>, current: int, prev: int): seq<int> {
    if walk == [] then []
    else
      var b := walk[0];
      if b.hidden then Discovered(walk[1..], current, prev)
      else if b.number != current && b.number != prev then [b.number] + Discovered(walk[1..], current, b.number)
      else Discovered(walk[1..], current, b.number)
  }

  /** The buffers met from the one after `cur` on, once around. */
  function Forward(bufs: seq<Buffer>, cur: nat): seq<Buffer>
    requires cur < |bufs|
  {
    bufs[cur + 1..] + bufs[..cur]
  }

  function ReverseBuffers(bufs: seq<Buffer>): seq<Buffer> {
    seq(|bufs|, i requires 0 <= i < |bufs| => bufs[|bufs| - 1 - i])
  }

  function Backward(bufs: seq<Buffer>, cur: nat): seq<Buffer>
    requires cur < |bufs|
  {
    ReverseBuffers(Forward(bufs, cur))
  }

  lemma DiscoverOne(walk: seq<Buffer>, k: nat, current: int, prev: int)
    requires k < |walk|
    ensures var b := walk[k];
            var rest := if b.hidden then Discovered(walk[k + 1..], current, prev)
                        else Discovered(walk[k + 1..], current, b.number);
            Discovered(walk[k..], current, prev)
            == if !b.hidden && b.number != current && b.number != prev then [b.number] + rest else rest
  {
    assert walk[k..][1..] == walk[k + 1..];
  }

  lemma DiscoverNone(walk: seq<Buffer>, current: int, prev: int)
    requires walk == []
    ensures Discovered(walk, current, prev) == []
  {}

  /** The number that +N switches to. */
  function Jump(bufs: seq<Buffer>, cur: nat, n: int): Option<int>
    requires cur < |bufs|
  {
    Nth(Discovered(Forward(bufs, cur), bufs[cur].number, bufs[cur].number), n)
  }

  /** The number that -N switches to. */
  function JumpBack(bufs: seq<Buffer>, cur: nat, n: int): Option<int>
    requires cur < |bufs|
  {
    Nth(Discovered(Backward(bufs, cur), bufs[cur].number, bufs[cur].number), n)
  }

  /** The numbers found so far are the first of all. */
  lemma Found(found: seq<int>, rest: seq<int>, n: int)
    requires n > 0
    ensures |found| == n ==> Nth(found + rest, n) == Some(found[n - 1])
    ensures |found| < n && rest == [] ==> Nth(found + rest, n) == None
  {}

  lemma OneMoreFound(found: seq<int>, x: int, rest: seq<int>)
    ensures found + ([x] + rest) == (found + [x]) + rest
  {}

  lemma ForwardAt(bufs: seq<Buffer>, cur: nat)
    requires cur < |bufs|
    ensures var walk := Forward(bufs, cur);
            && |walk| == |bufs| - 1
            && forall k :: 0 <= k < |walk| ==>
                 walk[k] == bufs[if cur + 1 + k < |bufs| then cur + 1 + k else cur + 1 + k - |bufs|]
  {}

  /** The loop of /buffer +N. */
  method JumpForward(bufs: seq<Buffer>, cur: nat, n: int) returns (target: Option<int>)
    requires cur < |bufs| && n > 0
    ensures target == Jump(bufs, cur, n)
  {
    hide Discovered, Forward, Nth;
    ghost var walk := Forward(bufs, cur);
    ForwardAt(bufs, cur);
    ghost var found: seq<int> := [];
    ghost var k := 0;
    var current := bufs[cur].number;
    ghost var all := Discovered(walk, current, current);
    assert walk[0..] == walk;
    var count, prev, ptr := 0, current, cur;
    while true
      invariant 0 <= k <= |walk| && count == |found| < n
      invariant ptr == if cur + k < |bufs| then cur + k else cur + k - |bufs|
      invariant found + Discovered(walk[k..], current, prev) == all
      decreases |walk| - k
    {
      ptr := ptr + 1;
      if ptr == |bufs| { ptr := 0; }
      if ptr == cur {
        DiscoverNone(walk[k..], current, prev);
        Found(found, Discovered(walk[k..], current, prev), n);
        break;
      }
      assert walk[k] == bufs[ptr];
      DiscoverOne(walk, k, current, prev);
      if !bufs[ptr].hidden {
        if bufs[ptr].number != current && bufs[ptr].number != prev {
          count := count + 1;
          ghost var rest := Discovered(walk[k + 1..], current, bufs[ptr].number);
          OneMoreFound(found, bufs[ptr].number, rest);
          found := found + [bufs[ptr].number];
          Found(found, rest, n);
          if count == n { return Some(bufs[ptr].number); }
        }
        prev := bufs[ptr].number;
      }
      k := k + 1;
    }
    return None;
  }

  lemma BackwardAt(bufs: seq<Buffer>, cur: nat)
    requires cur < |bufs|
    ensures var walk := Backward(bufs, cur);
            && |walk| == |bufs| - 1
            && forall k :: 0 <= k < |walk| ==> walk[k] == bufs[if k < cur then cur - 1 - k else cur + |bufs| - 1 - k]
  {}

  /** The loop of /buffer -N. */
  method JumpBackward(bufs: seq<Buffer>, cur: nat, n: int) returns (target: Option<int>)
    requires cur < |bufs| && n > 0
    ensures target == JumpBack(bufs, cur, n)
  {
    hide Discovered, Backward, Nth;
    ghost var walk := Backward(bufs, cur);
    BackwardAt(bufs, cur);
    ghost var found: seq<int> := [];
    ghost var k := 0;
    var current := bufs[cur].number;
    ghost var all := Discovered(walk, current, current);
    assert walk[0..] == walk;
    var count, prev, ptr := 0, current, cur;
    while true
      invariant 0 <= k <= |walk| && count == |found| < n
      invariant ptr == if k <= cur then cur - k else cur + |bufs| - k
      invariant found + Discovered(walk[k..], current, prev) == all
      decreases |walk| - k
    {
      if ptr == 0 { ptr := |bufs| - 1; } else { ptr := ptr - 1; }
      if ptr == cur {
        DiscoverNone(walk[k..], current, prev);
        Found(found, Discovered(walk[k..], current, prev), n);
        break;
      }
      assert walk[k] == bufs[ptr];
      DiscoverOne(walk, k, current, prev);
      if !bufs[ptr].hidden {
        if bufs[ptr].number != current && bufs[ptr].number != prev {
          count := count + 1;
          ghost var rest := Discovered(walk[k + 1..], current, bufs[ptr].number);
          OneMoreFound(found, bufs[ptr].number, rest);
          found := found + [bufs[ptr].number];
          Found(found, rest, n);
          if count == n { return Some(bufs[ptr].number); }
        }
        prev := bufs[ptr].number;
      }
      k := k + 1;
    }
    return None;
  }

  // ---------------------------------------------- the walk discovers the cyclic order

  lemma AscendingCons(h: int, t: seq<int>)
    requires Ascending(t) && forall x :: x in t ==> h < x
    ensures Ascending([h] + t)
  {
    var v := [h] + t;
    forall i, j | 0 <= i < j < |v| ensures v[i] < v[j] {
      assert v[j] == t[j - 1] && t[j - 1] in t;
      if i > 0 { assert v[i] == t[i - 1]; }
    }
  }

  lemma AscendingTail(v: seq<int>)
    requires v != [] && Ascending(v)
    ensures Ascending(v[1..]) && forall x :: x in v[1..] <==> x in v && x > v[0]
  {
    forall x ensures x in v[1..] <==> x in v && x > v[0] {
      if x in v[1..] { var i :| 0 <= i < |v[1..]| && v[1..][i] == x; assert v[i + 1] == x; }
      if x in v && x > v[0] { var i :| 0 <= i < |v| && v[i] == x; assert v[1..][i - 1] == x; }
    }
  }

  lemma {:induction false} AboveIs(v: seq<int>, c: int)
    requires Ascending(v)
    ensures Ascending(Above(v, c)) && forall x :: x in Above(v, c) <==> x in v && x > c
  {
    if v != [] {
      AscendingTail(v);
      AboveIs(v[1..], c);
      if v[0] > c { AscendingCons(v[0], Above(v[1..], c)); }
    }
  }

  lemma {:induction false} BelowIs(v: seq<int>, c: int)
    requires Ascending(v)
    ensures Ascending(Below(v, c)) && forall x :: x in Below(v, c) <==> x in v && x < c
  {
    if v != [] {
      AscendingTail(v);
      BelowIs(v[1..], c);
      if v[0] < c { AscendingCons(v[0], Below(v[1..], c)); }
    }
  }

  /** An ascending list is determined by its elements. */
  lemma {:induction false} AscendingUnique(a: seq<int>, b: seq<int>)
    requires Ascending(a) && Ascending(b) && forall x :: x in a <==> x in b
    ensures a == b
  {
    if b != [] { assert b[0] in b; }
    if a != [] {
      var x := a[0];
      assert x in a && x in b;
      var y := b[0];
      assert y in b && y in a;
      assert x == y by { AscendingTail(a); AscendingTail(b); }
      forall z ensures z in a[1..] <==> z in b[1..] { AscendingTail(a); AscendingTail(b); }
      AscendingUnique(a[1..], b[1..]);
      assert a == [x] + a[1..] && b == [x] + b[1..];
    }
  }

  lemma ShowsTail(bufs: seq<Buffer>, x: int)
    requires bufs != []
    ensures Shows(bufs, x) <==> Shows(bufs[1..], x) || (!bufs[0].hidden && bufs[0].number == x)
  {
    if Shows(bufs[1..], x) {
      var i :| 0 <= i < |bufs[1..]| && !bufs[1..][i].hidden && bufs[1..][i].number == x;
      assert bufs[i + 1].number == x;
    }
    if Shows(bufs, x) {
      var i :| 0 <= i < |bufs| && !bufs[i].hidden && bufs[i].number == x;
      if i > 0 { assert bufs[1..][i - 1].number == x; }
    }
  }

  /** Rising from `prev`, which is at least the current number. */
  lemma {:induction false} DiscoverAbove(s: seq<Buffer>, c: int, prev: int)
    requires SortedByNumber(s) && prev >= c && forall i :: 0 <= i < |s| ==> s[i].number >= prev
    ensures Ascending(Discovered(s, c, prev))
    ensures forall x :: x in Discovered(s, c, prev) <==> Shows(s, x) && x > prev
  {
    if s != [] {
      var next := if s[0].hidden then prev else s[0].number;
      DiscoverAbove(s[1..], c, next);
      var rest := Discovered(s[1..], c, next);
      var d := if next > prev then [next] + rest else rest;
      assert Discovered(s, c, prev) == d;
      if next > prev { AscendingCons(next, rest); }
      forall x ensures x in d <==> Shows(s, x) && x > prev {
        ShowsTail(s, x);
        assert x in d <==> x in rest || (next > prev && x == next);
      }
    }
  }

  /** Rising below the current number, after numbers that are not below it. */
  lemma {:induction false} DiscoverBelow(s: seq<Buffer>, c: int, prev: int)
    requires SortedByNumber(s) && forall i :: 0 <= i < |s| ==> s[i].number <= c
    requires prev >= c || forall i :: 0 <= i < |s| ==> s[i].number >= prev
    ensures Ascending(Discovered(s, c, prev))
    ensures forall x :: x in Discovered(s, c, prev) <==> Shows(s, x) && x < c && (prev >= c || x > prev)
  {
    if s != [] {
      var next := if s[0].hidden then prev else s[0].number;
      DiscoverBelow(s[1..], c, next);
      if next != c && next != prev { AscendingCons(next, Discovered(s[1..], c, next)); }
      forall x ensures x in Discovered(s, c, prev) <==> Shows(s, x) && x < c && (prev >= c || x > prev) {
        ShowsTail(s, x);
      }
    }
  }

  function LastVisible(s: seq<Buffer>, prev: int): int {
    if s == [] then prev else LastVisible(s[1..], if s[0].hidden then prev else s[0].number)
  }

  lemma {:induction false} DiscoverAppend(a: seq<Buffer>, b: seq<Buffer>, c: int, prev: int)
    ensures Discovered(a + b, c, prev) == Discovered(a, c, prev) + Discovered(b, c, LastVisible(a, prev))
  {
    if a == [] {
      assert a + b == b;
    } else {
      assert (a + b)[0] == a[0] && (a + b)[1..] == a[1..] + b;
      DiscoverAppend(a[1..], b, c, if a[0].hidden then prev else a[0].number);
    }
  }

  lemma {:induction false} LastVisibleAtLeast(s: seq<Buffer>, prev: int, c: int)
    requires prev >= c && forall i :: 0 <= i < |s| ==> s[i].number >= c
    ensures LastVisible(s, prev) >= c
  {
    if s != [] { LastVisibleAtLeast(s[1..], if s[0].hidden then prev else s[0].number, c); }
  }

  /** +N goes to the N-th distinct visible number after the current one in cyclic order. */
  lemma ForwardIsCyclic(bufs: seq<Buffer>, cur: nat, v: seq<int>)
    requires cur < |bufs| && SortedByNumber(bufs) && VisibleNumbers(bufs, v)
    ensures var c := bufs[cur].number;
            Discovered(Forward(bufs, cur), c, c) == Cyclic(v, c)
  {
    var c := bufs[cur].number;
    var after, before := bufs[cur + 1..], bufs[..cur];
    DiscoverAppend(after, before, c, c);
    DiscoverAbove(after, c, c);
    LastVisibleAtLeast(after, c, c);
    DiscoverBelow(before, c, LastVisible(after, c));
    AboveIs(v, c);
    BelowIs(v, c);
    forall x ensures x > c && Shows(bufs, x) <==> x > c && Shows(after, x)
             ensures x < c && Shows(bufs, x) <==> x < c && Shows(before, x) {
      ShowsSplit(bufs, cur, x);
    }
    AscendingUnique(Discovered(after, c, c), Above(v, c));
    AscendingUnique(Discovered(before, c, LastVisible(after, c)), Below(v, c));
  }

  lemma ShowsSplit(bufs: seq<Buffer>, cur: nat, x: int)
    requires cur < |bufs| && SortedByNumber(bufs)
    ensures x > bufs[cur].number ==> (Shows(bufs, x) <==> Shows(bufs[cur + 1..], x))
    ensures x < bufs[cur].number ==> (Shows(bufs, x) <==> Shows(bufs[..cur], x))
  {
    var after, before := bufs[cur + 1..], bufs[..cur];
    if Shows(bufs, x) {
      var i :| 0 <= i < |bufs| && !bufs[i].hidden && bufs[i].number == x;
      if i > cur { assert after[i - cur - 1].number == x; }
      if i < cur { assert before[i].number == x; }
    }
    if Shows(after, x) {
      var i :| 0 <= i < |after| && !after[i].hidden && after[i].number == x;
      assert bufs[cur + 1 + i].number == x;
    }
    if Shows(before, x) {
      var i :| 0 <= i < |before| && !before[i].hidden && before[i].number == x;
      assert bufs[i].number == x;
    }
  }

  // ------------------------------------------------------------- going backward

  function Mirror(bufs: seq<Buffer>): seq<Buffer> {
    seq(|bufs|, i requires 0 <= i < |bufs| =>
      bufs[|bufs| - 1 - i].(number := -bufs[|bufs| - 1 - i].number))
  }

  function Negate(v: seq<int>): seq<int> { seq(|v|, i requires 0 <= i < |v| => -v[i]) }

  function NegateNumbers(bufs: seq<Buffer>): seq<Buffer> {
    seq(|bufs|, i requires 0 <= i < |bufs| => bufs[i].(number := -bufs[i].number))
  }

  lemma {:induction false} DiscoverNegated(walk: seq<Buffer>, c: int, prev: int)
    ensures Discovered(NegateNumbers(walk), -c, -prev) == Negate(Discovered(walk, c, prev))
  {
    if walk != [] {
      var b := walk[0];
      assert NegateNumbers(walk)[1..] == NegateNumbers(walk[1..]);
      DiscoverNegated(walk[1..], c, if b.hidden then prev else b.number);
    }
  }

  lemma MirrorShows(bufs: seq<Buffer>, x: int)
    ensures Shows(Mirror(bufs), -x) <==> Shows(bufs, x)
  {
    var m := Mirror(bufs);
    if Shows(bufs, x) {
      var i :| 0 <= i < |bufs| && !bufs[i].hidden && bufs[i].number == x;
      assert m[|bufs| - 1 - i].number == -x;
    }
    if Shows(m, -x) {
      var i :| 0 <= i < |m| && !m[i].hidden && m[i].number == -x;
      assert bufs[|bufs| - 1 - i].number == x;
    }
  }

  function MirrorNumbers(v: seq<int>): seq<int> { Negate(Reverse(v)) }

  lemma MirrorNumbersIs(v: seq<int>)
    requires Ascending(v)
    ensures Ascending(MirrorNumbers(v)) && forall x :: x in MirrorNumbers(v) <==> -x in v
  {
    var m := MirrorNumbers(v);
    forall x ensures x in m <==> -x in v {
      if -x in v { var i :| 0 <= i < |v| && v[i] == -x; assert m[|v| - 1 - i] == x; }
    }
  }

  lemma MirrorCyclic(v: seq<int>, c: int)
    requires Ascending(v)
    ensures Cyclic(MirrorNumbers(v), -c) == MirrorNumbers(Cyclic(v, c))
  {
    var m := MirrorNumbers(v);
    MirrorNumbersIs(v);
    AboveIs(v, c); BelowIs(v, c);
    AboveIs(m, -c); BelowIs(m, -c);
    MirrorNumbersIs(Above(v, c)); MirrorNumbersIs(Below(v, c));
    AscendingUnique(Above(m, -c), MirrorNumbers(Below(v, c)));
    AscendingUnique(Below(m, -c), MirrorNumbers(Above(v, c)));
    var a, b := Above(v, c), Below(v, c);
    assert MirrorNumbers(a + b) == MirrorNumbers(b) + MirrorNumbers(a);
  }

  lemma MirrorVisible(bufs: seq<Buffer>, v: seq<int>)
    requires SortedByNumber(bufs) && VisibleNumbers(bufs, v)
    ensures SortedByNumber(Mirror(bufs)) && VisibleNumbers(Mirror(bufs), MirrorNumbers(v))
  {
    MirrorNumbersIs(v);
    forall x ensures x in MirrorNumbers(v) <==> Shows(Mirror(bufs), x) { MirrorShows(bufs, -x); }
  }

  lemma NegateInjective(a: seq<int>, b: seq<int>)
    requires Negate(a) == Negate(b)
    ensures a == b
  {
    assert |a| == |Negate(a)| && |b| == |Negate(b)|;
    forall i | 0 <= i < |a| ensures a[i] == b[i] { assert Negate(a)[i] == -a[i] && Negate(b)[i] == -b[i]; }
  }

  /** -N goes to the N-th distinct visible number before the current one in cyclic order. */
  lemma BackwardIsCyclic(bufs: seq<Buffer>, cur: nat, v: seq<int>)
    requires cur < |bufs| && SortedByNumber(bufs) && VisibleNumbers(bufs, v)
    ensures var c := bufs[cur].number;
            Discovered(Backward(bufs, cur), c, c) == Reverse(Cyclic(v, c))
  {
    hide Discovered, Cyclic, Ascending, Shows, Negate;
    var c := bufs[cur].number;
    var m, k := Mirror(bufs), |bufs| - 1 - cur;
    MirrorVisible(bufs, v);
    ForwardIsCyclic(m, k, MirrorNumbers(v));
    MirrorCyclic(v, c);
    assert Forward(m, k) == NegateNumbers(Backward(bufs, cur)) by {
      BackwardAt(bufs, cur);
    }
    DiscoverNegated(Backward(bufs, cur), c, c);
    NegateInjective(Discovered(Backward(bufs, cur), c, c), Reverse(Cyclic(v, c)));
  }

  // ------------------------------------------------------------------- coming back

  /** `gui_buffer_switch_by_number`: the first active buffer with the number, if any. */
  function SwitchByNumber(bufs: seq<Buffer>, cur: nat, number: int): (r: nat)
    requires cur < |bufs|
    ensures r < |bufs|
  {
    if number < 0 || number == bufs[cur].number then cur else FirstActive(bufs, cur, number, 0)
  }

  /** Among merged buffers one is active. */
  ghost predicate HasActive(bufs: seq<Buffer>, x: int) {
    exists k :: 0 <= k < |bufs| && bufs[k].number == x && bufs[k].active
  }

  function FirstActive(bufs: seq<Buffer>, cur: nat, number: int, i: nat): (r: nat)
    requires cur < |bufs| && i <= |bufs|
    ensures r == cur || (r < |bufs| && bufs[r].number == number && bufs[r].active)
    ensures r == cur ==> forall k :: i <= k < |bufs| && k != cur ==> !(bufs[k].number == number && bufs[k].active)
    decreases |bufs| - i
  {
    if i == |bufs| then cur
    else if i != cur && number == bufs[i].number && bufs[i].active then i
    else FirstActive(bufs, cur, number, i + 1)
  }

  ghost predicate Takes(bufs: seq<Buffer>, cur: nat, number: int, k: nat) {
    k < |bufs| && k != cur && bufs[k].number == number && bufs[k].active
  }

  lemma {:induction false} FirstActiveIsFirst(bufs: seq<Buffer>, cur: nat, number: int, i: nat)
    requires cur < |bufs| && i <= |bufs|
    ensures var r := FirstActive(bufs, cur, number, i);
            forall k :: i <= k < (if r == cur then |bufs| else r) ==> !Takes(bufs, cur, number, k)
    decreases |bufs| - i
  {
    if i < |bufs| && FirstActive(bufs, cur, number, i) != i { FirstActiveIsFirst(bufs, cur, number, i + 1); }
  }

  /** Switching to another number goes to the first active buffer that has it, and stays where
      it is when there is none, or when the number is negative or the current one. */
  lemma SwitchIsExact(bufs: seq<Buffer>, cur: nat, number: int)
    requires cur < |bufs|
    ensures number < 0 || number == bufs[cur].number ==> SwitchByNumber(bufs, cur, number) == cur
    ensures number >= 0 && number != bufs[cur].number ==>
            var r := SwitchByNumber(bufs, cur, number);
            && (r != cur ==> Takes(bufs, cur, number, r) && forall k :: 0 <= k < r ==> !Takes(bufs, cur, number, k))
            && (r == cur ==> forall k :: 0 <= k < |bufs| ==> !Takes(bufs, cur, number, k))
  {
    FirstActiveIsFirst(bufs, cur, number, 0);
  }

  lemma {:induction false} AboveAt(v: seq<int>, i: nat)
    requires Ascending(v) && i < |v|
    ensures Above(v, v[i]) == v[i + 1..]
  {
    AboveIs(v, v[i]);
    var t := v[i + 1..];
    forall x ensures x in t <==> x in v && x > v[i] {
      if x in v && x > v[i] { var k :| 0 <= k < |v| && v[k] == x; assert t[k - i - 1] == x; }
    }
    AscendingUnique(Above(v, v[i]), t);
  }

  lemma {:induction false} BelowAt(v: seq<int>, i: nat)
    requires Ascending(v) && i < |v|
    ensures Below(v, v[i]) == v[..i]
  {
    BelowIs(v, v[i]);
    var t := v[..i];
    forall x ensures x in t <==> x in v && x < v[i] {
      if x in v && x < v[i] { var k :| 0 <= k < |v| && v[k] == x; assert t[k] == x; }
    }
    AscendingUnique(Below(v, v[i]), t);
  }

  /** In the cyclic order of a number that is listed, the position counts modulo the length. */
  lemma CyclicAt(v: seq<int>, i: nat, k: nat)
    requires Ascending(v) && i < |v| && k + 1 < |v|
    ensures |Cyclic(v, v[i])| == |v| - 1
    ensures Cyclic(v, v[i])[k] == v[if i + 1 + k < |v| then i + 1 + k else i + 1 + k - |v|]
  {
    AboveAt(v, i);
    BelowAt(v, i);
  }

  lemma CyclicLength(v: seq<int>, i: nat)
    requires Ascending(v) && i < |v|
    ensures |Cyclic(v, v[i])| == |v| - 1
  {
    AboveAt(v, i);
    BelowAt(v, i);
  }

  /** +N jumps exactly when there are N other visible numbers; and after a jump, -N returns to
      the starting number exactly when that number has a visible buffer. */
  lemma JumpAndReturn(bufs: seq<Buffer>, cur: nat, n: int, v: seq<int>)
    requires cur < |bufs| && n > 0 && SortedByNumber(bufs) && VisibleNumbers(bufs, v)
    requires forall i :: 0 <= i < |bufs| ==> bufs[i].number >= 0
    requires forall i :: 0 <= i < |bufs| ==> HasActive(bufs, bufs[i].number)
    ensures var s := bufs[cur].number;
            && (Jump(bufs, cur, n).Some? <==> n <= |Cyclic(v, s)|)
            && (Jump(bufs, cur, n).Some? ==>
                  var next := SwitchByNumber(bufs, cur, Jump(bufs, cur, n).value);
                  && bufs[next].number == Jump(bufs, cur, n).value
                  && (JumpBack(bufs, next, n) == Some(s) <==> Shows(bufs, s)))
  {
    var s := bufs[cur].number;
    ForwardIsCyclic(bufs, cur, v);
    AboveIs(v, s);
    BelowIs(v, s);
    if n <= |Cyclic(v, s)| {
      var t := Cyclic(v, s)[n - 1];
      assert t in Cyclic(v, s);
      var next := SwitchByNumber(bufs, cur, t);
      Arrives(bufs, cur, t);
      BackwardIsCyclic(bufs, next, v);
      if s in v { ComesBack(v, s, n, t); } else { NeverThere(v, s, t); }
    }
  }

  lemma Arrives(bufs: seq<Buffer>, cur: nat, t: int)
    requires cur < |bufs| && Shows(bufs, t) && t != bufs[cur].number
    requires forall i :: 0 <= i < |bufs| ==> bufs[i].number >= 0
    requires forall i :: 0 <= i < |bufs| ==> HasActive(bufs, bufs[i].number)
    ensures bufs[SwitchByNumber(bufs, cur, t)].number == t
  {
    var i :| 0 <= i < |bufs| && !bufs[i].hidden && bufs[i].number == t;
    assert HasActive(bufs, bufs[i].number);
  }

  lemma ComesBack(v: seq<int>, s: int, n: int, t: int)
    requires Ascending(v) && s in v && 1 <= n <= |Cyclic(v, s)| && t == Cyclic(v, s)[n - 1]
    ensures Nth(Reverse(Cyclic(v, t)), n) == Some(s)
  {
    hide Ascending, Cyclic, Nth, Reverse;
    var i :| 0 <= i < |v| && v[i] == s;
    CyclicLength(v, i);
    CyclicAt(v, i, n - 1);
    var j := if i + n < |v| then i + n else i + n - |v|;
    CyclicLength(v, j);
    CyclicAt(v, j, |v| - 1 - n);
    NthOfReverse(Cyclic(v, t), n);
  }

  lemma NthOfReverse(v: seq<int>, n: int)
    requires 1 <= n <= |v|
    ensures Nth(Reverse(v), n) == Some(v[|v| - n])
  {}

  lemma NeverThere(v: seq<int>, s: int, t: int)
    requires Ascending(v) && s !in v
    ensures s !in Reverse(Cyclic(v, t))
  {
    AboveIs(v, t);
    BelowIs(v, t);
  }
}
