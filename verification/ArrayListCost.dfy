/**
 What reallocation costs per insertion or removal, over all lists and runs: at most 9/2 slots
 copied, and no smaller number will do.  The lists that show it are filled far beyond their
 initial size and then emptied so that each shrinking follows a growing.
 */
module ArrayListCost {
  import opened ArrayListSpec

  /** What reallocation sees of a list. */
  datatype Sizes = Sizes(size: nat, alloc: nat, copied: nat, ops: nat)

  /** An unsorted list with duplicates. */
  function Plain(allocMin: nat): Settings { Settings((a, b) => 0, false, true, allocMin, false) }

  function SizesOf(m: nat, cmds: seq<Command>): Sizes {
    var st := Run(Plain(m), cmds);
    Sizes(|st.items|, st.alloc, st.copied, st.ops)
  }

  // ---------------------------------------------------------------------- single commands

  lemma AfterInsert(m: nat, cmds: seq<Command>)
    ensures var (s, n) := (SizesOf(m, cmds), GrowTo(SizesOf(m, cmds).size, SizesOf(m, cmds).alloc));
            SizesOf(m, cmds + [Insert(-1, NULL)])
            == Sizes(s.size + 1, n, s.copied + (if n != s.alloc then s.alloc else 0), s.ops + 1)
  {
    hide GrowTo;
    RunSnoc(Plain(m), cmds, Insert(-1, NULL));
  }

  lemma AfterRemove(m: nat, cmds: seq<Command>)
    requires SizesOf(m, cmds).size > 0
    ensures var s := SizesOf(m, cmds);
            var n := ShrinkTo(s.size, s.alloc, m);
            SizesOf(m, cmds + [Remove(0)])
            == Sizes(s.size - 1, n, s.copied + (if n != s.alloc then n else 0), s.ops + 1)
  {
    hide ShrinkTo;
    RunSnoc(Plain(m), cmds, Remove(0));
  }

  /** Insertions into free slots copy nothing. */
  lemma {:induction false} Fill(m: nat, cmds: seq<Command>, k: nat) returns (more: seq<Command>)
    requires SizesOf(m, cmds).size + k <= SizesOf(m, cmds).alloc
    ensures var s := SizesOf(m, cmds); SizesOf(m, more) == Sizes(s.size + k, s.alloc, s.copied, s.ops + k)
  {
    more := cmds;
    if k > 0 {
      more := Fill(m, cmds, k - 1);
      AfterInsert(m, more);
      more := more + [Insert(-1, NULL)];
    }
  }

  /** Removals that leave enough elements copy nothing. */
  lemma {:induction false} Drain(m: nat, cmds: seq<Command>, k: nat) returns (more: seq<Command>)
    requires var s := SizesOf(m, cmds); k <= s.size && s.size - k >= s.alloc - s.alloc / 2
    requires SizesOf(m, cmds).alloc > 1
    ensures var s := SizesOf(m, cmds); SizesOf(m, more) == Sizes(s.size - k, s.alloc, s.copied, s.ops + k)
  {
    more := cmds;
    if k > 0 {
      more := Drain(m, cmds, k - 1);
      AfterRemove(m, more);
      more := more + [Remove(0)];
    }
  }

  /** A list that asked for no slots at first gives all of them back in the end. */
  lemma GivesAllBack()
    ensures SizesOf(0, [Insert(-1, NULL), Remove(0), Insert(-1, NULL), Remove(0)]) == Sizes(0, 0, 1, 4)
  {
    var c1: seq<Command> := [Insert(-1, NULL)];
    assert [] + c1 == c1;
    AfterInsert(0, []);
    AfterRemove(0, c1);
    AfterInsert(0, c1 + [Remove(0)]);
    AfterRemove(0, c1 + [Remove(0)] + [Insert(-1, NULL)]);
    assert c1 + [Remove(0)] + [Insert(-1, NULL)] + [Remove(0)]
        == [Insert(-1, NULL), Remove(0), Insert(-1, NULL), Remove(0)];
  }

  // ----------------------------------------------------------------------- full lists

  /** The list is full, and `slack` half slots fewer have been copied than 9 for each operation. */
  ghost predicate Full(m: nat, cmds: seq<Command>, size: nat, slack: int, ops: nat) {
    var s := SizesOf(m, cmds);
    s.size == size && s.alloc == size && 9 * s.ops - 2 * s.copied == slack && s.ops >= ops
  }

  lemma Start(m: nat) returns (cmds: seq<Command>)
    ensures Full(m, cmds, m, 9 * m, m)
  {
    cmds := Fill(m, [], m);
  }

  /** A full list grows by half and is filled again. */
  lemma GrowAndFill(m: nat, cmds: seq<Command>, b: nat, slack: int, ops: nat) returns (more: seq<Command>)
    requires b >= 1 && Full(m, cmds, 2 * b, slack, ops)
    ensures Full(m, more, 3 * b, slack + 5 * b, ops + b)
  {
    AfterInsert(m, cmds);
    more := Fill(m, cmds + [Insert(-1, NULL)], b - 1);
  }

  /** A full list grows by one insertion, is drained until it shrinks, and is full again. */
  lemma GrowAndShrink(m: nat, cmds: seq<Command>, k: nat, slack: int, ops: nat) returns (more: seq<Command>)
    requires k >= 1 && 6 * k > m && Full(m, cmds, 4 * k, slack, ops)
    ensures Full(m, more, 3 * k, slack + 36 - 5 * k, ops)
  {
    AfterInsert(m, cmds);
    more := Drain(m, cmds + [Insert(-1, NULL)], k + 1);
    AfterRemove(m, more);
    more := more + [Remove(0)];
    AfterInsert(m, more);
    more := more + [Insert(-1, NULL)];
  }

  // ----------------------------------------------------------- as long as one likes, up and down

  /** `k` times the `e`-th power of `p` and the `f`-th power of `q`. */
  function Mix(p: nat, q: nat, e: nat, f: nat, k: nat): nat {
    if e > 0 then p * Mix(p, q, e - 1, f, k) else if f > 0 then q * Mix(p, q, 0, f - 1, k) else k
  }

  lemma MixFirst(p: nat, q: nat, e: nat, f: nat, k: nat)
    ensures Mix(p, q, e + 1, f, k) == p * Mix(p, q, e, f, k)
  {}

  lemma {:induction false} MixNext(p: nat, q: nat, e: nat, f: nat, k: nat)
    ensures Mix(p, q, e, f + 1, k) == q * Mix(p, q, e, f, k)
  {
    if e > 0 {
      MixNext(p, q, e - 1, f, k);
      Regroup(p, q, Mix(p, q, e - 1, f, k));
    }
  }

  lemma {:induction false} MixAtLeast(e: nat, f: nat, k: nat)
    ensures Mix(12, 9, e, f, k) >= Mix(8, 9, e + f, 0, k) >= k
    decreases e + f
  {
    if e > 0 { MixAtLeast(e - 1, f, k); } else if f > 0 { MixAtLeast(0, f - 1, k); }
  }

  lemma {:induction false} MixOfOne(p: nat, q: nat, r: nat, e: nat, k: nat)
    ensures Mix(p, q, e, 0, k) == Mix(p, r, e, 0, k) == Mix(r, p, 0, e, k)
  {
    if e > 0 { MixOfOne(p, q, r, e - 1, k); }
  }

  /** 12 to the `n` outgrows 9 to the `n`. */
  lemma {:induction false} Outgrows(n: nat, k: nat)
    ensures (3 + n) * Mix(12, 9, 0, n, k) <= 3 * Mix(12, 9, n, 0, k)
  {
    if n > 0 {
      Outgrows(n - 1, k);
      var x, y := Mix(12, 9, 0, n - 1, k), Mix(12, 9, n - 1, 0, k);
      assert (3 + n) * (9 * x) <= 12 * ((2 + n) * x) by { assert (3 + n) * 9 <= 12 * (2 + n); }
    }
  }

  /** `j` times up from the initial size. */
  lemma {:induction false} Upwards(n: nat, j: nat, k: nat) returns (cmds: seq<Command>)
    requires j <= n && k >= 1
    ensures var m, b := Mix(8, 12, n, 0, k), Mix(8, 12, n - j, j, k); Full(m, cmds, b, 5 * b + 4 * m, b)
  {
    hide Mix, Full;
    var m := Mix(8, 12, n, 0, k);
    if j == 0 {
      cmds := Start(m);
    } else {
      cmds := Upwards(n, j - 1, k);
      var u := Mix(8, 12, n - j, j - 1, k);
      MixFirst(8, 12, n - j, j - 1, k);
      MixNext(8, 12, n - j, j - 1, k);
      MixPositive(8, 12, n - j, j - 1, k);
      cmds := GrowAndFill(m, cmds, 4 * u, 40 * u + 4 * m, 8 * u);
    }
  }

  lemma {:induction false} MixPositive(p: nat, q: nat, e: nat, f: nat, k: nat)
    requires p >= 1 && q >= 1 && k >= 1
    ensures Mix(p, q, e, f, k) >= 1
    decreases e + f
  {
    if e > 0 {
      MixPositive(p, q, e - 1, f, k);
      assert p * Mix(p, q, e - 1, f, k) >= 1;
    } else if f > 0 {
      MixPositive(p, q, 0, f - 1, k);
      assert q * Mix(p, q, 0, f - 1, k) >= 1;
    }
  }

  /** `n` times up and then `j` times down. */
  lemma {:induction false} Downwards(n: nat, j: nat, k: nat) returns (cmds: seq<Command>)
    requires j <= n && k >= 1
    ensures var m, b, top := Mix(8, 9, n, 0, k), Mix(12, 9, n - j, j, k), Mix(12, 9, n, 0, k);
            Full(m, cmds, b, 5 * b + 4 * m + 36 * j, top)
  {
    hide Mix, Full;
    var m, top := Mix(8, 9, n, 0, k), Mix(12, 9, n, 0, k);
    if j == 0 {
      cmds := Upwards(n, n, k);
      MixOfOne(8, 12, 9, n, k);
      MixOfOne(12, 9, 8, n, k);
    } else {
      cmds := Downwards(n, j - 1, k);
      var u := Mix(12, 9, n - j, j - 1, k);
      MixFirst(12, 9, n - j, j - 1, k);
      MixNext(12, 9, n - j, j - 1, k);
      MixPositive(12, 9, n - j, j - 1, k);
      MixAtLeast(n - j + 1, j - 1, k);
      cmds := GrowAndShrink(m, cmds, 3 * u, 60 * u + 4 * m + 36 * (j - 1), top);
    }
  }

  // ------------------------------------------------------------------------- the constant

  /** The bound of 9/2 is approached as closely as one likes. */
  lemma Approached(q: nat) returns (m: nat, cmds: seq<Command>)
    ensures q * (9 * SizesOf(m, cmds).ops - 2 * SizesOf(m, cmds).copied) < SizesOf(m, cmds).ops
  {
    hide Mix;
    var n := 135 * q + 1;
    m := Mix(8, 9, n, 0, n);
    cmds := Downwards(n, n, n);
    var b, top := Mix(12, 9, 0, n, n), Mix(12, 9, n, 0, n);
    MixAtLeast(0, n, n);
    Outgrows(n, n);
    var slack := 5 * b + 4 * m + 36 * n;
    BelowTop(q, n, b, top, slack);
  }

  lemma BelowTop(q: nat, n: nat, b: nat, top: nat, slack: nat)
    requires n == 135 * q + 1 && b >= 1 && (3 + n) * b <= 3 * top && slack <= 45 * b
    ensures q * slack < top
  {
    Times(q, slack, 45 * b);
    assert (3 + n) * b == 3 * (45 * (q * b)) + 4 * b;
    assert q * (45 * b) == 45 * (q * b);
  }

  lemma Times(k: nat, a: int, b: int)
    requires a <= b
    ensures k * a <= k * b
  {}

  /** Over all settings and runs at most p/q slots are copied for each insertion and removal if and
      only if p/q is at least 9/2. */
  lemma CostPerOperationIff(p: nat, q: nat)
    requires q > 0
    ensures (forall c, cmds :: q * Run(c, cmds).copied <= p * Run(c, cmds).ops) <==> 2 * p >= 9 * q
  {
    if 2 * p >= 9 * q {
      forall c, cmds ensures q * Run(c, cmds).copied <= p * Run(c, cmds).ops {
        AmortisedCost(c, cmds);
        Scale(p, q, Run(c, cmds).copied, Run(c, cmds).ops);
      }
    } else {
      var m, cmds := Approached(q);
      Exceeds(p, q, SizesOf(m, cmds).copied, SizesOf(m, cmds).ops);
      assert !(q * Run(Plain(m), cmds).copied <= p * Run(Plain(m), cmds).ops);
    }
  }

  lemma Scale(p: nat, q: nat, copied: nat, ops: nat)
    requires 2 * p >= 9 * q && 2 * copied <= 9 * ops
    ensures q * copied <= p * ops
  {
    Times(q, 2 * copied, 9 * ops);
    Times(ops, 9 * q, 2 * p);
    Regroup(q, 2, copied);
    Regroup(q, 9, ops);
    Regroup(ops, 9, q);
    Regroup(ops, 2, p);
    Commutes(ops, p);
    Commutes(ops, q);
  }

  lemma Exceeds(p: nat, q: nat, copied: nat, ops: nat)
    requires 2 * p < 9 * q && q * (9 * ops - 2 * copied) < ops
    ensures q * copied > p * ops
  {
    Times(ops, 2 * p + 1, 9 * q);
    Distribute(ops, 2 * p, -1);
    Regroup(ops, 2, p);
    Regroup(ops, 9, q);
    Distribute(q, 9 * ops, 2 * copied);
    Regroup(q, 9, ops);
    Regroup(q, 2, copied);
    Commutes(ops, p);
    Commutes(ops, q);
  }

  lemma Distribute(a: nat, b: int, c: int)
    ensures a * (b - c) == a * b - a * c
  {}

  lemma Regroup(a: nat, b: nat, c: nat)
    ensures a * (b * c) == b * (a * c)
  {}

  lemma Commutes(a: nat, b: nat)
    ensures a * b == b * a
  {}
}
