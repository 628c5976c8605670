/**
 The condition evaluator is correct: on the text that prints an expression tree it returns
 what the tree denotes, with any spaces that keep operands and operators apart.  The evaluator
 never builds that tree.
 */
module EvalTree {
  import opened CString
  import opened EvalCompare
  import opened EvalCondition
  import opened EvalMeaning

  /** All operators, loosest first: the order in which the evaluator looks for them. */
  const OPERATORS: seq<string> := ["||", "&&", "=~", "!~", "==", "!=", "<=", "<", ">=", ">"]

  predicate IsOperatorChar(c: char) { c in "|&=~!<>" }

  /** A tree with the spaces it is printed with: before and after each operator, and inside
      each pair of parentheses.  The operands of a regex comparison are raw text. */
  datatype Tree =
    | Empty
    | Atom(text: string)
    | Paren(inner: Tree, before: nat, after: nat)
    | Binary(l: Tree, rank: nat, r: Tree, sl: nat, sr: nat)
    | Match(left: string, rank: nat, right: string, sl: nat, sr: nat)

  function Rank(t: Tree): nat {
    if t.Binary? || t.Match? then t.rank else |OPERATORS|
  }

  function Join(l: string, sl: nat, op: string, sr: nat, r: string): string {
    l + (Spaces(sl) + (op + (Spaces(sr) + r)))
  }

  function Operator(rank: nat): string { if rank < |OPERATORS| then OPERATORS[rank] else "" }

  function Print(t: Tree): string {
    match t
    case Empty => ""
    case Atom(text) => text
    case Paren(inner, before, after) => "(" + (Spaces(before) + Print(inner) + Spaces(after) + ")")
    case Binary(l, rank, r, sl, sr) => Join(Print(l), sl, Operator(rank), sr, Print(r))
    case Match(left, rank, right, sl, sr) => Join(left, sl, Operator(rank), sr, right)
  }

  /** What a tree means, without any text to search. */
  function Denote(env: Env, t: Tree): string {
    match t
    case Empty => ""
    case Atom(text) => env.sub(text)
    case Paren(inner, _, _) => Denote(env, inner)
    case Binary(l, rank, r, _, _) => Bit(Says(env.engine, Operator(rank), Denote(env, l), Denote(env, r)))
    case Match(left, rank, right, _, _) => Bit(Says(env.engine, Operator(rank), env.sub(left), env.sub(right)))
  }

  // --------------------------------------------------------------- what is printable

  /** The nesting level after a text, if it closes no parenthesis it has not opened. */
  function Walk(s: string, level: nat): Option<nat> {
    if s == "" then Some(level)
    else if s[0] == ')' && level == 0 then None
    else Walk(s[1..], Next(level, s[0]))
  }

  predicate Balanced(s: string) { Walk(s, 0) == Some(0) }

  predicate NoOuterSpace(s: string) { s != "" ==> s[0] != ' ' && s[|s| - 1] != ' ' }

  /** A text in which none of the `n` loosest operators occurs outside parentheses. */
  predicate Piece(s: string, n: nat) {
    Balanced(s) && NoOuterSpace(s) && forall k :: 0 <= k < n && k < |OPERATORS| ==> Find(s, OPERATORS[k], 0) == None
  }

  /** No operator straddles the seam between two texts. */
  predicate NoStraddle(a: string, b: string, op: string) {
    |op| <= 1 || a == "" || b == "" || a[|a| - 1] != op[0] || b[0] != op[1]
  }

  /** Without a space before it, an operator must not be found one character early; without a
      space after it, no operator that is looked for earlier may straddle its end. */
  predicate Apart(l: string, sl: nat, rank: nat, sr: nat, r: string)
    requires rank < |OPERATORS|
  {
    && (sl == 0 ==> NoStraddle(l, OPERATORS[rank], OPERATORS[rank]))
    && (sr == 0 ==> forall k :: 0 <= k < rank ==> NoStraddle(OPERATORS[rank], r, OPERATORS[k]))
  }

  /** A left operand there must be.  Spaces after an operator without right operand are those
      around the whole. */
  predicate Separated(l: string, sl: nat, rank: nat, sr: nat, r: string)
    requires rank < |OPERATORS|
  {
    l != "" && (r == "" ==> sr == 0) && Apart(l, sl, rank, sr, r)
  }

  /** The last operand of a chain of the operator of that rank. */
  function LastOperand(t: Tree, rank: nat): Tree {
    if t.Binary? && t.rank == rank then LastOperand(t.r, rank) else t
  }

  /** What may be printed without further parentheses.  || and && may be chained on both
      sides; comparisons bind in the order of their table, the first one loosest, and chain
      to the right.  Only a right operand may be empty. */
  predicate Printable(t: Tree) {
    match t
    case Empty => true
    case Atom(text) => text != "" && !OpensParen(text) && Piece(text, |OPERATORS|)
    case Paren(inner, before, after) => Printable(inner)
    case Binary(l, rank, r, sl, sr) =>
      && rank < |OPERATORS| && rank != 2 && rank != 3
      && Printable(l) && Printable(r)
      && (Rank(l) > rank || (rank < 2 && Rank(l) == rank && !LastOperand(l, rank).Empty?)) && Rank(r) >= rank
      && Separated(Print(l), sl, rank, sr, Print(r))
    case Match(left, rank, right, sl, sr) =>
      && (rank == 2 || rank == 3)
      && Piece(left, rank + 1) && Piece(right, rank)
      && Separated(left, sl, rank, sr, right)
  }

  // ------------------------------------------------------------ searching in pieces

  function LevelAfter(s: string, level: nat): nat {
    if s == "" then level else LevelAfter(s[1..], Next(level, s[0]))
  }

  lemma ConsAppend(a: string, b: string)
    requires a != ""
    ensures (a + b)[0] == a[0] && (a + b)[1..] == a[1..] + b
  {}

  lemma {:induction false} WalkAppend(a: string, b: string, level: nat)
    ensures Walk(a + b, level) == if Walk(a, level) == None then None else Walk(b, Walk(a, level).value)
  {
    if a == "" {
      assert a + b == b;
    } else {
      ConsAppend(a, b);
      if !(a[0] == ')' && level == 0) { WalkAppend(a[1..], b, Next(level, a[0])); }
    }
  }

  lemma {:induction false} WalkLevel(s: string, level: nat)
    requires Walk(s, level).Some?
    ensures LevelAfter(s, level) == Walk(s, level).value
  {
    if s != "" { WalkLevel(s[1..], Next(level, s[0])); }
  }

  lemma PrefixAppend(a: string, b: string, op: string)
    requires a != "" && 1 <= |op| <= 2 && NoStraddle(a, b, op)
    ensures op <= a + b <==> op <= a
  {
    var c := a + b;
    if |op| <= |a| { assert c[..|op|] == a[..|op|]; }
    else if b != "" { assert c[0] == a[0] && c[1] == b[0]; }
  }

  /** One step of the search. */
  lemma FindStep(s: string, op: string, level: nat)
    requires s != ""
    ensures var l := Next(level, s[0]);
            Find(s, op, level) == if l == 0 && op <= s then Some(0) else Shift(Find(s[1..], op, l), 1)
  {}

  lemma {:induction false} FindAppend(a: string, b: string, op: string, level: nat)
    requires 1 <= |op| <= 2 && Find(a, op, level) == None && NoStraddle(a, b, op)
    ensures Find(a + b, op, level) == Shift(Find(b, op, LevelAfter(a, level)), |a|)
  {
    if a == "" {
      assert a + b == b;
    } else {
      hide Find, NoStraddle;
      var c, l := a + b, Next(level, a[0]);
      ConsAppend(a, b);
      PrefixAppend(a, b, op);
      FindStep(a, op, level);
      FindStep(c, op, level);
      NoStraddleTail(a, b, op);
      FindAppend(a[1..], b, op, l);
    }
  }

  lemma NoStraddleTail(a: string, b: string, op: string)
    requires a != "" && NoStraddle(a, b, op)
    ensures NoStraddle(a[1..], b, op)
  {}

  lemma WalkStep(s: string, level: nat, w: nat)
    requires s != "" && Walk(s, level) == Some(w)
    ensures Walk(s[1..], Next(level, s[0])) == Some(w) && Next(level + 1, s[0]) == Next(level, s[0]) + 1
  {}

  /** Between parentheses nothing is found. */
  lemma {:induction false} FindInside(s: string, rest: string, op: string, level: nat, w: nat)
    requires op != "" && Walk(s, level) == Some(w)
    ensures Find(s + rest, op, level + 1) == Shift(Find(rest, op, w + 1), |s|)
  {
    if s == "" {
      assert s + rest == rest;
    } else {
      hide Find, Walk, Next, Shift;
      var c, l := s + rest, Next(level, s[0]);
      ConsAppend(s, rest);
      WalkStep(s, level, w);
      FindStep(c, op, level + 1);
      FindInside(s[1..], rest, op, l, w);
      ShiftTwice(Find(rest, op, w + 1), Find(c[1..], op, l + 1), Find(c, op, level + 1), |s| - 1, 1);
    }
  }

  lemma WalkMoves(s: string, level: nat)
    requires s != "" && Walk(s, level).Some?
    ensures Walk(s[1..], Next(level, s[0])) == Walk(s, level) && !(s[0] == ')' && level == 0)
  {}

  lemma ClosingStep(s: string, level: nat)
    requires s != "" && !(s[0] == ')' && level == 0)
    ensures Closing(s, level) == Shift(Closing(s[1..], Next(level, s[0])), 1)
  {}

  lemma {:induction false} ClosingAfter(s: string, rest: string, level: nat)
    requires Walk(s, level).Some?
    ensures Closing(s + rest, level) == Shift(Closing(rest, Walk(s, level).value), |s|)
  {
    if s == "" {
      assert s + rest == rest;
    } else {
      var l := Next(level, s[0]);
      ConsAppend(s, rest);
      ClosingStep(s + rest, level);
      WalkMoves(s, level);
      hide Closing, Walk, Next;
      ClosingAfter(s[1..], rest, l);
    }
  }

  // --------------------------------------------------------- searching in printed text

  predicate IsOperator(op: string) {
    1 <= |op| <= 2 && forall i :: 0 <= i < |op| ==> IsOperatorChar(op[i])
  }

  lemma OperatorsAreOperators(k: nat)
    requires k < |OPERATORS|
    ensures IsOperator(OPERATORS[k])
  {}

  lemma {:induction false} FindInSpaces(n: nat, op: string)
    requires IsOperator(op)
    ensures Find(Spaces(n), op, 0) == None && LevelAfter(Spaces(n), 0) == 0 && Walk(Spaces(n), 0) == Some(0)
  {
    if n > 0 {
      FindInSpaces(n - 1, op);
      assert Spaces(n)[1..] == Spaces(n - 1);
      assert Spaces(n)[0] == ' ' && !IsOperatorChar(' ');
    }
  }

  /** Past a text that the operator neither occurs in nor straddles. */
  lemma FindPast(a: string, b: string, op: string)
    requires IsOperator(op) && Find(a, op, 0) == None && LevelAfter(a, 0) == 0 && NoStraddle(a, b, op)
    ensures Find(a + b, op, 0) == Shift(Find(b, op, 0), |a|)
  {
    FindAppend(a, b, op, 0);
  }

  lemma NoStraddleSpaces(a: string, n: nat, rest: string, op: string)
    requires IsOperator(op) && (n == 0 ==> NoStraddle(a, rest, op))
    ensures NoStraddle(a, Spaces(n) + rest, op) && NoStraddle(Spaces(n), rest, op)
  {
    assert !IsOperatorChar(' ');
    if n > 0 {
      assert (Spaces(n) + rest)[0] == ' ' && Spaces(n)[n - 1] == ' ';
    } else {
      assert Spaces(n) + rest == rest;
    }
  }

  lemma ShiftTwice(a: Option<nat>, b: Option<nat>, c: Option<nat>, m: nat, n: nat)
    requires b == Shift(a, m) && c == Shift(b, n)
    ensures c == Shift(a, n + m)
  {}

  /** Past such a text and the spaces after it. */
  lemma FindPastGap(a: string, n: nat, rest: string, op: string)
    requires IsOperator(op) && Find(a, op, 0) == None && LevelAfter(a, 0) == 0
    requires n == 0 ==> NoStraddle(a, rest, op)
    ensures Find(a + (Spaces(n) + rest), op, 0) == Shift(Find(rest, op, 0), |a| + n)
  {
    hide Find, LevelAfter, Spaces, IsOperator, IsOperatorChar, NoStraddle;
    NoStraddleSpaces(a, n, rest, op);
    FindInSpaces(n, op);
    var tail := Spaces(n) + rest;
    FindPast(Spaces(n), rest, op);
    FindPast(a, tail, op);
    SpacesLength(n);
    ShiftTwice(Find(rest, op, 0), Find(tail, op, 0), Find(a + tail, op, 0), n, |a|);
  }

  lemma SpacesLength(n: nat)
    ensures |Spaces(n)| == n
  {}

  lemma OperatorLevel(op: string)
    requires IsOperator(op)
    ensures LevelAfter(op, 0) == 0 && Walk(op, 0) == Some(0)
  {
    assert !IsOperatorChar('(') && !IsOperatorChar(')');
    assert |op| == 2 ==> op[1..][0] == op[1] && op[1..][1..] == "";
    assert |op| == 1 ==> op[1..] == "";
  }

  /** No operator contains a looser one: <= is looked for before <, and >= before >. */
  lemma LooserNotInside(k: nat, rank: nat)
    requires k < rank < |OPERATORS|
    ensures Find(OPERATORS[rank], OPERATORS[k], 0) == None
  {
    var o, op := OPERATORS[k], OPERATORS[rank];
    OperatorLevel(op);
    assert !(o <= op);
    assert !(o <= op[1..]);
    assert |op| == 2 ==> op[1..][1..] == "";
  }

  /** No operator that is looked for earlier ends in the first character of a later one. */
  lemma NoEarlierBefore(l: string, k: nat, rank: nat, rest: string)
    requires k < rank < |OPERATORS|
    ensures NoStraddle(l, OPERATORS[rank] + rest, OPERATORS[k])
  {
    var o, op := OPERATORS[k], OPERATORS[rank];
    assert |o| == 2 ==> o[1] != op[0];
    assert (op + rest)[0] == op[0];
  }

  lemma FindFirst(op: string, rest: string)
    requires IsOperator(op)
    ensures Find(op + rest, op, 0) == Some(0)
  {
    assert !IsOperatorChar('(') && !IsOperatorChar(')');
    assert (op + rest)[0] == op[0] && (op + rest)[..|op|] == op;
  }

  /** In printed text no looser operator is found. */
  lemma LooserNotInJoin(l: string, sl: nat, rank: nat, sr: nat, r: string, k: nat)
    requires k < rank < |OPERATORS| && Piece(l, rank) && Piece(r, rank)
    requires Apart(l, sl, rank, sr, r)
    ensures Find(Join(l, sl, OPERATORS[rank], sr, r), OPERATORS[k], 0) == None
  {
    var op := OPERATORS[rank];
    OperatorsAreOperators(rank);
    OperatorsAreOperators(k);
    OperatorLevel(op);
    WalkLevel(l, 0);
    LooserNotInside(k, rank);
    FindPastGap(op, sr, r, OPERATORS[k]);
    NoEarlierBefore(l, k, rank, Spaces(sr) + r);
    FindPastGap(l, sl, op + (Spaces(sr) + r), OPERATORS[k]);
  }

  /** Its own operator is found between its operands. */
  lemma FindInJoin(l: string, sl: nat, rank: nat, sr: nat, r: string)
    requires rank < |OPERATORS| && Piece(l, rank + 1)
    requires sl == 0 ==> NoStraddle(l, OPERATORS[rank], OPERATORS[rank])
    ensures Find(Join(l, sl, OPERATORS[rank], sr, r), OPERATORS[rank], 0) == Some(|l| + sl)
  {
    var op := OPERATORS[rank];
    OperatorsAreOperators(rank);
    WalkLevel(l, 0);
    FindFirst(op, Spaces(sr) + r);
    assert (op + (Spaces(sr) + r))[0] == op[0];
    FindPastGap(l, sl, op + (Spaces(sr) + r), op);
  }

  lemma JoinBalanced(l: string, sl: nat, op: string, sr: nat, r: string)
    requires IsOperator(op) && Balanced(l) && Balanced(r)
    ensures Balanced(Join(l, sl, op, sr, r))
  {
    FindInSpaces(sl, op);
    FindInSpaces(sr, op);
    OperatorLevel(op);
    WalkAppend(Spaces(sr), r, 0);
    WalkAppend(op, Spaces(sr) + r, 0);
    WalkAppend(Spaces(sl), op + (Spaces(sr) + r), 0);
    WalkAppend(l, Spaces(sl) + (op + (Spaces(sr) + r)), 0);
  }

  lemma JoinPiece(l: string, sl: nat, rank: nat, sr: nat, r: string)
    requires rank < |OPERATORS| && Piece(l, rank) && Piece(r, rank) && Separated(l, sl, rank, sr, r)
    ensures Piece(Join(l, sl, OPERATORS[rank], sr, r), rank)
  {
    var op := OPERATORS[rank];
    var s := Join(l, sl, op, sr, r);
    OperatorsAreOperators(rank);
    forall k | 0 <= k < rank ensures Find(s, OPERATORS[k], 0) == None { LooserNotInJoin(l, sl, rank, sr, r, k); }
    JoinBalanced(l, sl, op, sr, r);
    JoinNoOuterSpace(l, sl, op, sr, r);
  }

  lemma JoinNoOuterSpace(l: string, sl: nat, op: string, sr: nat, r: string)
    requires IsOperator(op) && NoOuterSpace(l) && NoOuterSpace(r) && l != "" && (r == "" ==> sr == 0)
    ensures NoOuterSpace(Join(l, sl, op, sr, r)) && Join(l, sl, op, sr, r) != ""
  {
    var s, m := Join(l, sl, op, sr, r), op + (Spaces(sr) + r);
    assert !IsOperatorChar(' ');
    assert s[0] == l[0] && s[|s| - 1] == m[|m| - 1];
    if r != "" { assert m[|m| - 1] == r[|r| - 1]; } else { assert m[|m| - 1] == op[|op| - 1]; }
  }

  /** Parentheses hide every operator inside them. */
  lemma ParenPiece(inner: string, n: nat)
    requires Balanced(inner)
    ensures Piece("(" + (inner + ")"), n)
    ensures TakeBracket("(" + (inner + ")")) == Bracket(inner, "")
  {
    var s := "(" + (inner + ")");
    assert s[0] == '(' && s[1..] == inner + ")";
    forall k | 0 <= k < n && k < |OPERATORS| ensures Find(s, OPERATORS[k], 0) == None {
      OperatorsAreOperators(k);
      assert !IsOperatorChar(')');
      FindInside(inner, ")", OPERATORS[k], 0, 0);
      assert ")"[1..] == "";
    }
    WalkInside(inner, 0);
    WalkAppend(inner, ")", 1);
    assert ")"[1..] == "";
    ClosingAfter(inner, ")", 0);
    assert s[1..|inner| + 1] == inner && s[|inner| + 2..] == "";
  }

  lemma {:induction false} WalkInside(s: string, level: nat)
    requires Walk(s, level).Some?
    ensures Walk(s, level + 1) == Some(Walk(s, level).value + 1)
  {
    if s != "" { WalkInside(s[1..], Next(level, s[0])); }
  }

  lemma {:induction false} PrintPiece(t: Tree)
    requires Printable(t)
    ensures Piece(Print(t), Rank(t)) && (Print(t) == "" <==> t.Empty?)
  {
    match t
    case Empty =>
    case Atom(text) =>
    case Paren(inner, before, after) =>
      PrintPiece(inner);
      PaddedBalanced(before, Print(inner), after);
      ParenPiece(Padded(before, Print(inner), after), |OPERATORS|);
    case Binary(l, rank, r, sl, sr) =>
      PrintPiece(l);
      PrintPiece(r);
      JoinPiece(Print(l), sl, rank, sr, Print(r));
    case Match(left, rank, right, sl, sr) =>
      JoinPiece(left, sl, rank, sr, right);
  }

  // -------------------------------------------------------- taking printed text apart

  function Padded(lead: nat, s: string, trail: nat): string { Spaces(lead) + s + Spaces(trail) }

  lemma PaddedBalanced(lead: nat, s: string, trail: nat)
    requires Balanced(s)
    ensures Balanced(Padded(lead, s, trail))
  {
    FindInSpaces(lead, "<");
    FindInSpaces(trail, "<");
    WalkAppend(Spaces(lead), s, 0);
    WalkAppend(Spaces(lead) + s, Spaces(trail), 0);
  }

  lemma {:induction false} TrimEndPast(s: string, n: nat)
    requires s == "" || s[|s| - 1] != ' '
    ensures TrimEnd(s + Spaces(n)) == s
  {
    var t := s + Spaces(n);
    if n == 0 {
      assert t == s;
    } else {
      TrimEndPast(s, n - 1);
      assert t[..|t| - 1] == s + Spaces(n - 1) && t[|t| - 1] == ' ';
    }
  }

  lemma PaddedTrims(lead: nat, s: string, trail: nat)
    requires NoOuterSpace(s)
    ensures TrimEnd(SkipSpaces(Padded(lead, s, trail))) == s
  {
    if s == "" {
      assert Padded(lead, s, trail) == Spaces(lead + trail) + "";
      SkipSpacesPast(lead + trail, "");
    } else {
      assert Padded(lead, s, trail) == Spaces(lead) + (s + Spaces(trail));
      SkipSpacesPast(lead, s + Spaces(trail));
      TrimEndPast(s, trail);
    }
  }

  /** An operator that is looked for and passed over: it does not occur outside parentheses, or
      occurs first at the very beginning. */
  predicate Passed(e: string, op: string) { Find(e, op, 0) == None || Find(e, op, 0) == Some(0) }

  lemma {:induction false} SplitAtFirst(e: string, ops: seq<string>, k: nat, j: nat, p: nat)
    requires k <= j < |ops| && p > 0 && Find(e, ops[j], 0) == Some(p)
    requires forall i :: k <= i < j ==> Passed(e, ops[i])
    ensures SplitAt(e, ops, k) == Some((j, p))
    decreases j - k
  {
    if k < j { SplitAtFirst(e, ops, k + 1, j, p); }
  }

  lemma {:induction false} SplitAtNone(e: string, ops: seq<string>, k: nat)
    requires forall i :: k <= i < |ops| ==> Passed(e, ops[i])
    ensures SplitAt(e, ops, k) == None
    decreases |ops| - k
  {
    if k < |ops| { SplitAtNone(e, ops, k + 1); }
  }

  /** The two tables of the evaluator, one after the other. */
  lemma Tables()
    ensures OPERATORS == LOGICAL_OPS + COMPARISONS
    ensures forall k :: 0 <= k < |LOGICAL_OPS| ==> LOGICAL_OPS[k] == OPERATORS[k]
    ensures forall k :: 0 <= k < |COMPARISONS| ==> COMPARISONS[k] == OPERATORS[k + 2]
  {}

  /** How a text is taken apart when its loosest operator is the `rank`-th. */
  lemma SplitsAtRank(e: string, rank: nat, p: nat)
    requires rank < |OPERATORS| && p > 0 && Find(e, OPERATORS[rank], 0) == Some(p)
    requires forall k :: 0 <= k < rank ==> Passed(e, OPERATORS[k])
    ensures rank < 2 ==> SplitAt(e, LOGICAL_OPS, 0) == Some((rank, p))
    ensures rank >= 2 ==> SplitAt(e, LOGICAL_OPS, 0) == None && SplitAt(e, COMPARISONS, 0) == Some((rank - 2, p))
  {
    Tables();
    if rank < 2 {
      SplitAtFirst(e, LOGICAL_OPS, 0, rank, p);
    } else {
      SplitAtNone(e, LOGICAL_OPS, 0);
      SplitAtFirst(e, COMPARISONS, 0, rank - 2, p);
    }
  }

  function FormAt(rank: nat, l: string, r: string): Form
    requires rank < |OPERATORS|
  {
    if rank < 2 then Logic(rank == 0, l, r) else Comparing(COMPARISON_CODES[rank - 2], l, r)
  }

  lemma LogicTaken(expr: string, e: string, rank: nat, p: nat)
    requires e == TrimEnd(SkipSpaces(expr)) && e != "" && rank < 2 && SplitAt(e, LOGICAL_OPS, 0) == Some((rank, p))
    ensures TakeApart(expr) == Logic(rank == 0, LeftOf(e, p), RightOf(e, p, LOGICAL_OPS[rank]))
  {
    hide SplitAt, TrimEnd, SkipSpaces, LeftOf, RightOf;
  }

  lemma ComparisonTaken(expr: string, e: string, k: nat, p: nat)
    requires e == TrimEnd(SkipSpaces(expr)) && e != "" && SplitAt(e, LOGICAL_OPS, 0) == None
    requires k < |COMPARISONS| && SplitAt(e, COMPARISONS, 0) == Some((k, p))
    ensures TakeApart(expr) == Comparing(COMPARISON_CODES[k], LeftOf(e, p), RightOf(e, p, COMPARISONS[k]))
  {
    hide SplitAt, TrimEnd, SkipSpaces, LeftOf, RightOf;
  }

  /** The text is cut at `p`: there the operator of that rank occurs first, not at the beginning,
      and all operators looked for earlier are passed over. */
  ghost predicate IsCut(e: string, rank: nat, p: nat) {
    && rank < |OPERATORS| && Find(e, OPERATORS[rank], 0) == Some(p) && p > 0
    && forall k :: 0 <= k < rank ==> Passed(e, OPERATORS[k])
  }

  /** A trimmed text is taken apart at its cut. */
  lemma CutIsTaken(expr: string, rank: nat, p: nat)
    requires IsCut(TrimEnd(SkipSpaces(expr)), rank, p)
    ensures var e := TrimEnd(SkipSpaces(expr));
            TakeApart(expr) == FormAt(rank, LeftOf(e, p), RightOf(e, p, OPERATORS[rank]))
  {
    hide TakeApart, Find, TrimEnd, SkipSpaces, SplitAt, LeftOf, RightOf, Passed;
    var e := TrimEnd(SkipSpaces(expr));
    Tables();
    SplitsAtRank(e, rank, p);
    if rank < 2 { LogicTaken(expr, e, rank, p); } else { ComparisonTaken(expr, e, rank - 2, p); }
  }

  lemma PartsOfJoin(l: string, sl: nat, op: string, sr: nat, r: string)
    requires NoOuterSpace(l) && l != "" && NoOuterSpace(r)
    ensures var e := Join(l, sl, op, sr, r);
            LeftOf(e, |l| + sl) == l && RightOf(e, |l| + sl, op) == r
  {
    var e := Join(l, sl, op, sr, r);
    var p := |l| + sl;
    assert e[..p] == l + Spaces(sl);
    assert e[p + |op|..] == Spaces(sr) + r;
    TrimEndPast(l, sl);
    SkipSpacesPast(sr, r);
  }

  lemma TakesJoinApart(l: string, sl: nat, rank: nat, sr: nat, r: string, lead: nat, trail: nat)
    requires rank < |OPERATORS| && Piece(l, rank + 1) && Piece(r, rank) && Separated(l, sl, rank, sr, r)
    ensures TakeApart(Padded(lead, Join(l, sl, OPERATORS[rank], sr, r), trail)) == FormAt(rank, l, r)
  {
    hide Find, Walk, TakeApart, FormAt, TrimEnd, SkipSpaces, IsOperatorChar, Join, LeftOf, RightOf, Padded, NoStraddle;
    var op := OPERATORS[rank];
    var e := Join(l, sl, op, sr, r);
    JoinPiece(l, sl, rank, sr, r);
    FindInJoin(l, sl, rank, sr, r);
    PaddedTrims(lead, e, trail);
    assert IsCut(e, rank, |l| + sl);
    CutIsTaken(Padded(lead, e, trail), rank, |l| + sl);
    PartsOfJoin(l, sl, op, sr, r);
  }

  lemma TakesNothingApart(e: string, lead: nat, trail: nat)
    requires e != "" && Piece(e, |OPERATORS|)
    ensures TakeApart(Padded(lead, e, trail)) == Other(e)
  {
    PaddedTrims(lead, e, trail);
    Tables();
    SplitAtNone(e, LOGICAL_OPS, 0);
    SplitAtNone(e, COMPARISONS, 0);
  }
}
