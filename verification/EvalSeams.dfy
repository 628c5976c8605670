/**
 Where the evaluator cuts a text, said without the way it searches; and exactly when the text of
 an operator and its operands is cut at that operator.
 */
module EvalSeams {
  import opened CString
  import opened EvalCompare
  import opened EvalCondition
  import opened EvalTree

  // ---------------------------------------------------------------- what a search finds

  /** `search` stands at `p`, outside parentheses when the text begins at the given level. */
  ghost predicate OccursAt(s: string, search: string, level: nat, p: nat) {
    p < |s| && search <= s[p..] && LevelAfter(s[..p + 1], level) == 0
  }

  lemma OccursLater(s: string, search: string, level: nat, p: nat)
    requires s != ""
    ensures OccursAt(s, search, level, p + 1) <==> OccursAt(s[1..], search, Next(level, s[0]), p)
  {
    if p + 1 < |s| {
      assert s[..p + 2][1..] == s[1..][..p + 1] && s[..p + 2][0] == s[0];
      assert s[1..][p..] == s[p + 1..];
    }
  }

  lemma OccursHere(s: string, search: string, level: nat)
    requires s != ""
    ensures OccursAt(s, search, level, 0) <==> Next(level, s[0]) == 0 && search <= s
  {
    var t := s[..1];
    assert t[1..] == "" && t[0] == s[0] && s[0..] == s;
    assert LevelAfter(t, level) == LevelAfter("", Next(level, s[0]));
  }

  /** The search finds the first place outside parentheses, and misses only when there is none. */
  lemma {:induction false} FindIsFirst(s: string, search: string, level: nat)
    ensures match Find(s, search, level)
            case None => forall q: nat :: !OccursAt(s, search, level, q)
            case Some(p) => OccursAt(s, search, level, p) && forall q: nat :: q < p ==> !OccursAt(s, search, level, q)
  {
    if s != "" {
      OccursHere(s, search, level);
      var l := Next(level, s[0]);
      FindIsFirst(s[1..], search, l);
      forall q: nat ensures OccursAt(s, search, level, q + 1) <==> OccursAt(s[1..], search, l, q) {
        OccursLater(s, search, level, q);
      }
      forall q: nat | q > 0 ensures OccursAt(s, search, level, q) <==> OccursAt(s[1..], search, l, q - 1) {
        OccursLater(s, search, level, q - 1);
      }
    }
  }

  lemma BracketTaken(e: string, inner: string, rest: string)
    requires e == "(" + (inner + (")" + rest)) && Balanced(inner)
    ensures TakeBracket(e) == Bracket(inner, rest)
  {
    hide Closing, Walk;
    var t := inner + (")" + rest);
    assert e[0] == '(' && e[1..] == t;
    ClosingAfter(inner, ")" + rest, 0);
    ClosingHere(rest);
    assert e[1..|inner| + 1] == inner && e[|inner| + 2..] == rest;
  }

  lemma ClosingHere(rest: string)
    ensures Closing(")" + rest, 0) == Some(0)
  {}

  lemma BracketGives(e: string, inner: string, rest: string)
    requires TakeBracket(e) == Bracket(inner, rest)
    ensures e == "(" + (inner + (")" + rest)) && Balanced(inner)
  {
    hide Closing, Walk;
    var t := e[1..];
    var p := Closing(t, 0).value;
    ClosingIsBalanced(t, 0);
    assert t[..p] == inner && t[p + 1..] == rest;
    assert t == t[..p] + ([t[p]] + t[p + 1..]);
  }

  /** A leading parenthesis is taken together with the one that closes it: what is between them is
      balanced, and that leaves one way to take the text apart. */
  lemma BracketIsExact(e: string, inner: string, rest: string)
    ensures TakeBracket(e) == Bracket(inner, rest) <==> e == "(" + (inner + (")" + rest)) && Balanced(inner)
  {
    hide TakeBracket, Walk;
    if e == "(" + (inner + (")" + rest)) && Balanced(inner) { BracketTaken(e, inner, rest); }
    if TakeBracket(e) == Bracket(inner, rest) { BracketGives(e, inner, rest); }
  }

  /** A text without operators that starts with a parenthesis and is not "(", a balanced text, ")"
      and a rest has no value, and as a condition it is false. */
  lemma MissingParenthesis(env: Env, expr: string, e: string, fuel: nat)
    requires TakeApart(expr) == Other(e) && e[0] == '(' && fuel > 0
    requires forall inner, rest :: e == "(" + (inner + (")" + rest)) ==> !Balanced(inner)
    ensures EvalCond(env, expr, fuel) == Done(None) && EvalExpression(env, Some(expr), fuel) == Done(Some("0"))
  {
    hide TakeApart, TakeBracket;
    TakeBracketKinds(e);
    if TakeBracket(e).Bracket? { BracketSplits(e); }
    UnclosedNode(READER, env, expr, e, fuel - 1);
    ExpressionMeans(env, expr, fuel);
  }

  lemma BracketSplits(e: string)
    requires TakeBracket(e).Bracket?
    ensures exists inner, rest :: e == "(" + (inner + (")" + rest)) && Balanced(inner)
  {
    var b := TakeBracket(e);
    BracketIsExact(e, b.inner, b.rest);
  }

  lemma UnclosedNode(rd: Reader, env: Env, text: string, e: string, fuel: nat)
    requires rd.takeApart(text) == Other(e) && rd.takeBracket(e) == Unclosed
    ensures Eval(rd, env, text, fuel + 1) == Done(None)
  {}

  lemma TakeBracketKinds(e: string)
    requires e != "" && e[0] == '('
    ensures TakeBracket(e).Unclosed? || TakeBracket(e).Bracket?
  {}

  lemma {:induction false} ClosingIsBalanced(s: string, level: nat)
    requires Closing(s, level).Some?
    ensures var p := Closing(s, level).value; s[p] == ')' && Walk(s[..p], level) == Some(0)
  {
    if !(s[0] == ')' && level == 0) {
      var l := if s[0] == '(' then level + 1 else if s[0] == ')' then level - 1 else level;
      ClosingIsBalanced(s[1..], l);
      var p := Closing(s, level).value;
      assert s[..p][1..] == s[1..][..p - 1] && s[..p][0] == s[0];
    }
  }

  // ------------------------------------------------------------------- where a text is cut

  ghost predicate HasCut(e: string) { exists rank: nat, p: nat :: IsCut(e, rank, p) }

  /** The first of all operators, from the `k`-th on, that is not passed over. */
  lemma {:induction false} FirstCut(e: string, k: nat) returns (rank: nat)
    requires k <= |OPERATORS| && forall i :: 0 <= i < k ==> Passed(e, OPERATORS[i])
    ensures rank <= |OPERATORS| && forall i :: 0 <= i < rank ==> Passed(e, OPERATORS[i])
    ensures rank < |OPERATORS| ==> !Passed(e, OPERATORS[rank])
    decreases |OPERATORS| - k
  {
    rank := k;
    if k < |OPERATORS| && Passed(e, OPERATORS[k]) { rank := FirstCut(e, k + 1); }
  }

  /** A trimmed text is cut where it can be, into what is left and what is right of the operator;
      one that has no cut is taken as it is. */
  lemma TakeApartIs(expr: string, rank: nat, p: nat)
    ensures var e := TrimEnd(SkipSpaces(expr));
            && (e == "" ==> TakeApart(expr) == Blank)
            && (IsCut(e, rank, p) ==> TakeApart(expr) == FormAt(rank, LeftOf(e, p), RightOf(e, p, OPERATORS[rank])))
            && (e != "" && !HasCut(e) ==> TakeApart(expr) == Other(e))
  {
    var e := TrimEnd(SkipSpaces(expr));
    if IsCut(e, rank, p) { CutIsTaken(expr, rank, p); }
    if e != "" && !HasCut(e) {
      var first := FirstCut(e, 0);
      if first < |OPERATORS| { assert IsCut(e, first, Find(e, OPERATORS[first], 0).value); }
      Tables();
      SplitAtNone(e, LOGICAL_OPS, 0);
      SplitAtNone(e, COMPARISONS, 0);
    }
  }

  // --------------------------------------------------------------- operands that touch

  /** What may not touch: the operator's own character on its left when it is a doubled one; on its
      right ~ or = where they make an operator that is looked for earlier. */
  predicate Touching(l: string, sl: nat, rank: nat, sr: nat, r: string) {
    || (sl == 0 && l != "" && ((rank == 0 && l[|l| - 1] == '|') || (rank == 1 && l[|l| - 1] == '&')
                               || (rank == 4 && l[|l| - 1] == '=')))
    || (sr == 0 && r != "" && ((r[0] == '~' && (4 <= rank <= 6 || rank == 8)) || (r[0] == '=' && 5 <= rank <= 9)))
  }

  lemma ApartMeans(l: string, sl: nat, rank: nat, sr: nat, r: string)
    requires rank < |OPERATORS|
    ensures Apart(l, sl, rank, sr, r) <==> !Touching(l, sl, rank, sr, r)
  {
    LeftMeans(l, rank);
    if forall k :: 0 <= k < rank ==> NoStraddle(OPERATORS[rank], r, OPERATORS[k]) {
      RightNeeds(rank, r);
    } else {
      var k :| 0 <= k < rank && !NoStraddle(OPERATORS[rank], r, OPERATORS[k]);
      RightGives(rank, k, r);
    }
  }

  lemma LeftMeans(l: string, rank: nat)
    requires rank < |OPERATORS|
    ensures NoStraddle(l, OPERATORS[rank], OPERATORS[rank]) <==>
            l == "" || !((rank == 0 && l[|l| - 1] == '|') || (rank == 1 && l[|l| - 1] == '&')
                         || (rank == 4 && l[|l| - 1] == '='))
  {}

  lemma RightNeeds(rank: nat, r: string)
    requires rank < |OPERATORS| && forall k :: 0 <= k < rank ==> NoStraddle(OPERATORS[rank], r, OPERATORS[k])
    ensures r == "" || !((r[0] == '~' && (4 <= rank <= 6 || rank == 8)) || (r[0] == '=' && 5 <= rank <= 9))
  {
    var op := OPERATORS[rank];
    if rank > 2 { assert NoStraddle(op, r, OPERATORS[2]); }
    if rank > 4 { assert NoStraddle(op, r, OPERATORS[4]); }
    if rank > 6 { assert NoStraddle(op, r, OPERATORS[6]); }
    if rank > 8 { assert NoStraddle(op, r, OPERATORS[8]); }
  }

  lemma RightGives(rank: nat, k: nat, r: string)
    requires k < rank < |OPERATORS| && !NoStraddle(OPERATORS[rank], r, OPERATORS[k])
    ensures r != "" && ((r[0] == '~' && (4 <= rank <= 6 || rank == 8)) || (r[0] == '=' && 5 <= rank <= 9))
  {}

  /** An operand that touches on the left is cut one character early, if at all. */
  lemma CutEarly(l: string, op: string, rest: string)
    requires IsOperator(op) && l != "" && LevelAfter(l, 0) == 0 && !NoStraddle(l, op, op)
    ensures Find(l + (op + rest), op, 0).Some? && Find(l + (op + rest), op, 0).value < |l|
  {
    var s, p := l + (op + rest), |l| - 1;
    assert s[p..] == [l[p]] + (op + rest);
    assert op <= s[p..] by { assert s[p..][0] == op[0] && s[p..][1] == op[0]; }
    assert s[..p + 1] == l;
    assert OccursAt(s, op, 0, p);
    FindIsFirst(s, op, 0);
  }

  /** One that touches on the right makes an operator that is found behind the beginning. */
  lemma FindAcross(l: string, sl: nat, rank: nat, r: string, k: nat)
    requires k < rank < |OPERATORS| && Balanced(l) && l != "" && Find(l, OPERATORS[k], 0) == None
    requires !NoStraddle(OPERATORS[rank], r, OPERATORS[k])
    ensures !Passed(Join(l, sl, OPERATORS[rank], 0, r), OPERATORS[k])
  {
    var o, op := OPERATORS[k], OPERATORS[rank];
    OperatorsAreOperators(k);
    OperatorsAreOperators(rank);
    WalkLevel(l, 0);
    assert Spaces(0) + r == r;
    NoEarlierBefore(l, k, rank, r);
    FindPastGap(l, sl, op + r, o);
    LooserNotInside(k, rank);
    FindInSeam(op, r, o);
  }

  lemma FindInSeam(op: string, r: string, o: string)
    requires IsOperator(op) && IsOperator(o) && !NoStraddle(op, r, o)
    ensures Find(op + r, o, 0).Some?
  {
    var s, p := op + r, |op| - 1;
    assert s[p] == op[p] && s[p + 1] == r[0];
    assert o <= s[p..];
    assert s[..p + 1] == op;
    OperatorLevel(op);
    assert OccursAt(s, o, 0, p);
    FindIsFirst(s, o, 0);
  }

  lemma EmptyRight(l: string, sl: nat, op: string, sr: nat, lead: nat, trail: nat)
    ensures Padded(lead, Join(l, sl, op, sr, ""), trail) == Padded(lead, Join(l, sl, op, 0, ""), sr + trail)
  {
    assert Spaces(sr) + Spaces(trail) == Spaces(sr + trail);
    var a := Spaces(lead) + l + Spaces(sl) + op;
    assert Padded(lead, Join(l, sl, op, sr, ""), trail) == a + (Spaces(sr) + Spaces(trail));
    assert Padded(lead, Join(l, sl, op, 0, ""), sr + trail) == a + Spaces(sr + trail);
  }

  /** The form names the operator it was cut at. */
  lemma FormNamesRank(rank1: nat, l1: string, r1: string, rank2: nat, l2: string, r2: string)
    requires rank1 < |OPERATORS| && rank2 < |OPERATORS| && FormAt(rank1, l1, r1) == FormAt(rank2, l2, r2)
    ensures rank1 == rank2 && l1 == l2
  {}

  lemma {:induction false} TrimEndShorter(s: string)
    ensures |TrimEnd(s)| <= |s|
  {}

  /** A text that is taken apart into an operator and its operands has a cut at that operator, not
      before the end of the left operand. */
  lemma CutOf(expr: string, e: string, rank: nat, l: string, r: string) returns (p: nat)
    requires e == TrimEnd(SkipSpaces(expr)) && e != "" && rank < |OPERATORS|
    requires TakeApart(expr) == FormAt(rank, l, r)
    ensures IsCut(e, rank, p) && |l| <= p
  {
    hide TakeApart, Passed, Find, TrimEnd, SkipSpaces;
    TakeApartIs(expr, 0, 0);
    var k: nat, q: nat :| IsCut(e, k, q);
    TakeApartIs(expr, k, q);
    FormNamesRank(k, LeftOf(e, q), RightOf(e, q, OPERATORS[k]), rank, l, r);
    TrimEndShorter(e[..q]);
    p := q;
  }

  lemma TouchingFails(l: string, sl: nat, rank: nat, sr: nat, r: string, lead: nat, trail: nat)
    requires rank < |OPERATORS| && Piece(l, rank + 1) && Piece(r, rank) && l != "" && (r == "" ==> sr == 0)
    requires !Apart(l, sl, rank, sr, r)
    ensures TakeApart(Padded(lead, Join(l, sl, OPERATORS[rank], sr, r), trail)) != FormAt(rank, l, r)
  {
    hide TakeApart, Find, TrimEnd, SkipSpaces, FormAt, Walk;
    var op := OPERATORS[rank];
    var e := Join(l, sl, op, sr, r);
    var expr := Padded(lead, e, trail);
    OperatorsAreOperators(rank);
    JoinNoOuterSpace(l, sl, op, sr, r);
    PaddedTrims(lead, e, trail);
    if TakeApart(expr) == FormAt(rank, l, r) {
      var p := CutOf(expr, e, rank, l, r);
      if sl == 0 && !NoStraddle(l, op, op) {
        assert Spaces(0) + (op + (Spaces(sr) + r)) == op + (Spaces(sr) + r);
        WalkLevel(l, 0);
        CutEarly(l, op, Spaces(sr) + r);
      } else {
        var k :| 0 <= k < rank && !NoStraddle(op, r, OPERATORS[k]);
        FindAcross(l, sl, rank, r, k);
      }
      assert false;
    }
  }

  /** The printed form of an operator and its operands is cut at the operator, into exactly these
      operands, if and only if the operands do not touch it as described. */
  lemma JoinSplitsIff(l: string, sl: nat, rank: nat, sr: nat, r: string, lead: nat, trail: nat)
    requires rank < |OPERATORS| && Piece(l, rank + 1) && Piece(r, rank) && l != ""
    ensures TakeApart(Padded(lead, Join(l, sl, OPERATORS[rank], sr, r), trail)) == FormAt(rank, l, r)
            <==> !Touching(l, sl, rank, sr, r)
  {
    hide TakeApart, Padded, Join, FormAt, Piece, Apart;
    ApartMeans(l, sl, rank, sr, r);
    if r == "" && sr > 0 {
      EmptyRight(l, sl, OPERATORS[rank], sr, lead, trail);
      JoinSplitsIff(l, sl, rank, 0, r, lead, sr + trail);
    } else if Apart(l, sl, rank, sr, r) {
      TakesJoinApart(l, sl, rank, sr, r, lead, trail);
    } else {
      TouchingFails(l, sl, rank, sr, r, lead, trail);
    }
  }

  /** A short text without < and >, in which no two characters of operators follow each other. */
  lemma ShortPiece(s: string)
    requires 1 <= |s| <= 2 && forall i :: 0 <= i < |s| ==> s[i] !in "() <>"
    requires |s| == 2 ==> !IsOperatorChar(s[0]) || !IsOperatorChar(s[1])
    ensures Piece(s, |OPERATORS|)
  {
    var t := s[1..];
    assert |s| == 2 ==> t[0] == s[1] && t[1..] == "";
    assert Next(0, s[0]) == 0 && Walk(t, 0) == Some(0);
    assert s[0] != ' ' && s[|s| - 1] != ' ';
    forall k | 0 <= k < |OPERATORS| ensures Find(s, OPERATORS[k], 0) == None {
      OperatorsAreOperators(k);
      NotInShort(s, OPERATORS[k]);
    }
  }

  lemma NotInShort(s: string, op: string)
    requires 1 <= |s| <= 2 && forall i :: 0 <= i < |s| ==> s[i] !in "() <>"
    requires |s| == 2 ==> !IsOperatorChar(s[0]) || !IsOperatorChar(s[1])
    requires IsOperator(op) && (|op| == 1 ==> op[0] in "<>")
    ensures Find(s, op, 0) == None
  {
    hide Find, IsOperatorChar;
    var t := s[1..];
    FindStep(s, op, 0);
    PrefixChars(op, s);
    if |s| == 2 {
      assert t[0] == s[1] && t[1..] == "";
      PrefixChars(op, t);
      FindStep(t, op, 0);
    }
    FindNothing(op);
  }

  lemma PrefixChars(a: string, b: string)
    ensures a <= b ==> |a| <= |b| && forall i :: 0 <= i < |a| ==> a[i] == b[i]
  {}

  lemma FindNothing(op: string)
    ensures Find("", op, 0) == None
  {}

  /** Operands may touch an operator: a==!x is cut at ==. */
  lemma TouchingHarmless()
    ensures var t := Binary(Atom("a"), 4, Atom("!x"), 0, 0); Printable(t) && Print(t) == "a==!x"
  {
    hide Find, Walk;
    ShortPiece("a"); ShortPiece("!x");
    ApartMeans("a", 0, 4, 0, "!x");
    assert Join("a", 0, "==", 0, "!x") == "a==!x";
  }

  /** But in a===b the = that ends the left operand is taken for the operator: the text is cut
      into a and =b. */
  lemma TouchingHarmful()
    ensures var t := Binary(Atom("a="), 4, Atom("b"), 0, 0);
            Printable(t.l) && Printable(t.r) && !Printable(t) && Print(t) == "a===b"
    ensures TakeApart("a===b") == Comparing(Equal, "a", "=b")
  {
    hide Find, Walk, TakeApart;
    ShortPiece("a="); ShortPiece("b");
    ApartMeans("a=", 0, 4, 0, "b");
    assert Join("a=", 0, "==", 0, "b") == "a===b";
    CutEarlier();
  }

  lemma CutEarlier()
    ensures TakeApart("a===b") == Comparing(Equal, "a", "=b")
  {
    hide Find, Walk, TakeApart;
    ShortPiece("a"); ShortPiece("=b");
    ApartMeans("a", 0, 4, 0, "=b");
    assert Join("a", 0, "==", 0, "=b") == "a===b" && Padded(0, "a===b", 0) == "a===b";
    TakesJoinApart("a", 0, 4, 0, "=b", 0, 0);
  }
}
