/**
 Correctness of the condition evaluator on every printable tree.
 */
module EvalCorrect {
  import opened CString
  import opened EvalCompare
  import opened EvalCondition
  import opened EvalTree
  import opened EvalMeaning

  // ------------------------------------------------------------- chains of || and &&

  ghost predicate Rotated(t: Tree) { t.Binary? ==> Rank(t.l) > t.rank }

  /** A chain nested on the left, nested on the right instead. */
  function Rotate(t: Tree): Tree
    decreases if t.Binary? then t.l else t
  {
    if t.Binary? && t.rank < 2 && t.l.Binary? && t.l.rank == t.rank then
      Rotate(Binary(t.l.l, t.rank, Binary(t.l.r, t.rank, t.r, t.sl, t.sr), t.l.sl, t.l.sr))
    else t
  }

  lemma JoinAssociates(a: string, sl1: nat, sr1: nat, b: string, sl2: nat, sr2: nat, c: string, op: string)
    ensures Join(Join(a, sl1, op, sr1, b), sl2, op, sr2, c) == Join(a, sl1, op, sr1, Join(b, sl2, op, sr2, c))
  {
    var x, y := Spaces(sl1), Spaces(sr1);
    var rest := Spaces(sl2) + (op + (Spaces(sr2) + c));
    assert (a + (x + (op + (y + b)))) + rest == a + (x + (op + (y + (b + rest))));
  }

  /** || and && on three texts, nested on either side. */
  lemma SaysAssociates(engine: RegexEngine, rank: nat, a: string, b: string, c: string)
    requires rank < 2
    ensures var op := OPERATORS[rank];
            Bit(Says(engine, op, a, Bit(Says(engine, op, b, c))))
            == Bit(Says(engine, op, Bit(Says(engine, op, a, b)), c))
  {}

  lemma RotateDenotes(env: Env, t: Tree)
    requires t.Binary? && t.rank < 2 && t.l.Binary? && t.l.rank == t.rank
    ensures Denote(env, Binary(t.l.l, t.rank, Binary(t.l.r, t.rank, t.r, t.sl, t.sr), t.l.sl, t.l.sr)) == Denote(env, t)
  {
    hide Says, Bit;
    SaysAssociates(env.engine, t.rank, Denote(env, t.l.l), Denote(env, t.l.r), Denote(env, t.r));
  }

  /** Only the last character of the left operand and the first of the right one touch. */
  lemma SameSeam(l: string, l': string, sl: nat, rank: nat, sr: nat, r: string, r': string)
    requires rank < |OPERATORS| && Separated(l, sl, rank, sr, r) && l' != "" && l'[|l'| - 1] == l[|l| - 1]
    requires r' == r || (r != "" && r' != "" && r'[0] == r[0])
    ensures Separated(l', sl, rank, sr, r')
  {
    if sr == 0 {
      forall k | 0 <= k < rank ensures NoStraddle(OPERATORS[rank], r', OPERATORS[k]) {
        assert NoStraddle(OPERATORS[rank], r, OPERATORS[k]);
      }
    }
  }

  lemma SeparatedLeft(l: string, sl: nat, rank: nat, sr: nat, r: string)
    requires rank < |OPERATORS| && Separated(l, sl, rank, sr, r)
    ensures l != ""
  {}

  lemma JoinEnds(l: string, sl: nat, op: string, sr: nat, r: string)
    requires l != ""
    ensures var s := Join(l, sl, op, sr, r); s != "" && s[0] == l[0] && (r != "" ==> s[|s| - 1] == r[|r| - 1])
  {
    var s, m := Join(l, sl, op, sr, r), op + (Spaces(sr) + r);
    if r != "" { assert m[|m| - 1] == r[|r| - 1] && s[|s| - 1] == m[|m| - 1]; }
  }

  lemma RotateOnce(t: Tree)
    requires Printable(t) && t.Binary? && t.rank < 2 && t.l.Binary? && t.l.rank == t.rank
    ensures var u := Binary(t.l.l, t.rank, Binary(t.l.r, t.rank, t.r, t.sl, t.sr), t.l.sl, t.l.sr);
            Printable(u) && Print(u) == Print(t) && forall env :: Denote(env, u) == Denote(env, t)
  {
    hide Denote, Piece, Separated, Join;
    var l := t.l;
    var a, b, c, op := Print(l.l), Print(l.r), Print(t.r), Operator(t.rank);
    assert LastOperand(l, t.rank) == LastOperand(l.r, t.rank);
    assert Print(l.r) != "" by { PrintPiece(l.r); }
    JoinAssociates(a, l.sl, l.sr, b, t.sl, t.sr, c, op);
    var inner := Binary(l.r, t.rank, t.r, t.sl, t.sr);
    assert a != "" by { SeparatedLeft(a, l.sl, t.rank, l.sr, b); }
    JoinEnds(a, l.sl, op, l.sr, b);
    JoinEnds(b, t.sl, op, t.sr, c);
    SameSeam(Print(l), b, t.sl, t.rank, t.sr, c, c);
    SameSeam(a, a, l.sl, t.rank, l.sr, b, Print(inner));
    forall env ensures Denote(env, Binary(l.l, t.rank, inner, l.sl, l.sr)) == Denote(env, t) { RotateDenotes(env, t); }
  }

  lemma {:induction false} RotateKeeps(t: Tree)
    requires Printable(t)
    ensures var u := Rotate(t);
            && Printable(u) && Rotated(u) && Print(u) == Print(t) && u.Binary? == t.Binary?
            && forall env :: Denote(env, u) == Denote(env, t)
    decreases if t.Binary? then t.l else t
  {
    if t.Binary? && t.rank < 2 && t.l.Binary? && t.l.rank == t.rank {
      RotateOnce(t);
      RotateKeeps(Binary(t.l.l, t.rank, Binary(t.l.r, t.rank, t.r, t.sl, t.sr), t.l.sl, t.l.sr));
    }
  }

  // -------------------------------------------------------------- reading printed trees

  function FormOf(t: Tree): Form {
    match t
    case Empty => Blank
    case Binary(l, rank, r, _, _) => if rank < |OPERATORS| then FormAt(rank, Print(l), Print(r)) else Blank
    case Match(left, rank, right, _, _) => if rank < |OPERATORS| then FormAt(rank, left, right) else Blank
    case _ => Other(Print(t))
  }

  lemma TakesTreeApart(t: Tree, lead: nat, trail: nat)
    requires Printable(t) && Rotated(t)
    ensures TakeApart(Padded(lead, Print(t), trail)) == FormOf(t)
  {
    match t
    case Empty => PaddedTrims(lead, "", trail);
    case Binary(l, rank, r, sl, sr) =>
      PrintPiece(l);
      PrintPiece(r);
      TakesJoinApart(Print(l), sl, rank, sr, Print(r), lead, trail);
    case Match(left, rank, right, sl, sr) => TakesJoinApart(left, sl, rank, sr, right, lead, trail);
    case _ =>
      PrintPiece(t);
      TakesNothingApart(Print(t), lead, trail);
  }

  /** What correctness needs of the reader. */
  ghost predicate ReadsTrees(rd: Reader) {
    && (forall t, lead, trail :: Printable(t) && Rotated(t) ==>
          rd.takeApart(Padded(lead, Print(t), trail)) == FormOf(t))
    && (forall t: Tree :: Printable(t) && t.Atom? ==> rd.takeBracket(Print(t)) == NoBracket)
    && (forall t: Tree :: Printable(t) && t.Paren? ==>
          rd.takeBracket(Print(t)) == Bracket(Padded(t.before, Print(t.inner), t.after), ""))
  }

  lemma ReaderReadsTrees()
    ensures ReadsTrees(READER)
  {
    forall t, lead, trail | Printable(t) && Rotated(t)
      ensures TakeApart(Padded(lead, Print(t), trail)) == FormOf(t)
    {
      TakesTreeApart(t, lead, trail);
    }
    forall t: Tree | Printable(t) && t.Paren?
      ensures TakeBracket(Print(t)) == Bracket(Padded(t.before, Print(t.inner), t.after), "")
    {
      PrintPiece(t.inner);
      PaddedBalanced(t.before, Print(t.inner), t.after);
      ParenPiece(Padded(t.before, Print(t.inner), t.after), 0);
    }
  }

  // ------------------------------------------------------------------------- correctness

  lemma LogicNode(rd: Reader, env: Env, text: string, rank: nat, l: string, r: string, fuel: nat,
                  a: string, b: string)
    requires rank < 2 && rd.takeApart(text) == FormAt(rank, l, r)
    requires Eval(rd, env, l, fuel) == Done(Some(a)) && Eval(rd, env, r, fuel) == Done(Some(b))
    ensures Eval(rd, env, text, fuel + 1) == Done(Some(Bit(Says(env.engine, OPERATORS[rank], a, b))))
  {
    TrueIs(Some(a));
    TrueIs(Some(b));
  }

  lemma ComparisonNode(rd: Reader, env: Env, text: string, comp: Comparison, l: string, r: string, fuel: nat,
                       a: string, b: string)
    requires rd.takeApart(text) == Comparing(comp, l, r)
    requires if comp == RegexMatching || comp == RegexNotMatching then a == env.sub(l) && b == env.sub(r)
             else Eval(rd, env, l, fuel) == Done(Some(a)) && Eval(rd, env, r, fuel) == Done(Some(b))
    ensures Eval(rd, env, text, fuel + 1) == Done(Some(Compare(env.engine, Some(a), comp, Some(b))))
  {}

  lemma ParenNode(rd: Reader, env: Env, text: string, e: string, inner: string, fuel: nat, a: string)
    requires rd.takeApart(text) == Other(e) && rd.takeBracket(e) == Bracket(inner, "")
    requires Eval(rd, env, inner, fuel) == Done(Some(a))
    ensures Eval(rd, env, text, fuel + 2) == Done(Some(a))
  {}

  lemma AtomNode(rd: Reader, env: Env, text: string, e: string, fuel: nat)
    requires rd.takeApart(text) == Other(e) && rd.takeBracket(e) == NoBracket
    ensures Eval(rd, env, text, fuel + 1) == Done(Some(env.sub(e)))
  {}

  lemma ComparisonSays(env: Env, rank: nat, a: string, b: string)
    requires 2 <= rank < |OPERATORS|
    ensures Compare(env.engine, Some(a), COMPARISON_CODES[rank - 2], Some(b))
            == Bit(Says(env.engine, OPERATORS[rank], a, b))
  {
    hide Says, Bit, Compare;
    CompareSays(env.engine, rank - 2, Some(a), Some(b));
    assert OPERATORS[rank] == COMPARISONS[rank - 2];
  }

  lemma BinaryNode(rd: Reader, env: Env, text: string, t: Tree, fuel: nat)
    requires t.Binary? && t.rank < |OPERATORS| && t.rank != 2 && t.rank != 3
    requires rd.takeApart(text) == FormAt(t.rank, Print(t.l), Print(t.r))
    requires Eval(rd, env, Print(t.l), fuel) == Done(Some(Denote(env, t.l)))
    requires Eval(rd, env, Print(t.r), fuel) == Done(Some(Denote(env, t.r)))
    ensures Eval(rd, env, text, fuel + 1) == Done(Some(Denote(env, t)))
  {
    hide Says, Bit, Compare;
    var a, b := Denote(env, t.l), Denote(env, t.r);
    if t.rank < 2 {
      LogicNode(rd, env, text, t.rank, Print(t.l), Print(t.r), fuel, a, b);
    } else {
      ComparisonNode(rd, env, text, COMPARISON_CODES[t.rank - 2], Print(t.l), Print(t.r), fuel, a, b);
      ComparisonSays(env, t.rank, a, b);
    }
  }

  lemma MatchNode(rd: Reader, env: Env, text: string, t: Tree, fuel: nat)
    requires t.Match? && (t.rank == 2 || t.rank == 3)
    requires rd.takeApart(text) == FormAt(t.rank, t.left, t.right)
    ensures Eval(rd, env, text, fuel + 1) == Done(Some(Denote(env, t)))
  {
    hide Says, Bit, Compare;
    ComparisonNode(rd, env, text, COMPARISON_CODES[t.rank - 2], t.left, t.right, fuel,
                   env.sub(t.left), env.sub(t.right));
    ComparisonSays(env, t.rank, env.sub(t.left), env.sub(t.right));
  }

  lemma OperandsAreShorter(t: Tree)
    requires Printable(t) && (t.Binary? || t.Paren?)
    ensures t.Binary? ==> |Print(t.l)| < |Print(t)| && |Print(t.r)| < |Print(t)|
    ensures t.Paren? ==> |Padded(t.before, Print(t.inner), t.after)| + 2 == |Print(t)|
  {
    if t.Binary? { JoinLength(Print(t.l), t.sl, Operator(t.rank), t.sr, Print(t.r)); }
    if t.Paren? { PaddedLength(t.before, Print(t.inner), t.after); }
    hide Join, Padded, Separated, LastOperand;
  }

  lemma JoinLength(l: string, sl: nat, op: string, sr: nat, r: string)
    ensures |Join(l, sl, op, sr, r)| == |l| + sl + |op| + sr + |r|
  {}

  lemma PaddedLength(before: nat, s: string, after: nat)
    ensures |Padded(before, s, after)| == before + |s| + after
    ensures "(" + (Spaces(before) + s + Spaces(after) + ")") == "(" + (Padded(before, s, after) + ")")
  {}

  lemma ReadsParen(rd: Reader, t: Tree)
    requires ReadsTrees(rd) && Printable(t) && t.Paren?
    ensures rd.takeBracket(Print(t)) == Bracket(Padded(t.before, Print(t.inner), t.after), "")
    ensures Printable(t.inner)
  {}

  lemma {:induction false} EvalPrinted(rd: Reader, env: Env, t: Tree, lead: nat, trail: nat, fuel: nat)
    requires ReadsTrees(rd) && Printable(t) && |Padded(lead, Print(t), trail)| < fuel
    ensures Eval(rd, env, Padded(lead, Print(t), trail), fuel) == Done(Some(Denote(env, t)))
    decreases |Print(t)|, 2
  {
    RotateKeeps(t);
    EvalRotated(rd, env, Rotate(t), Padded(lead, Print(t), trail), fuel);
  }

  lemma {:induction false} EvalRotated(rd: Reader, env: Env, t: Tree, text: string, fuel: nat)
    requires ReadsTrees(rd) && Printable(t) && Rotated(t) && rd.takeApart(text) == FormOf(t)
    requires |Print(t)| < fuel
    ensures Eval(rd, env, text, fuel) == Done(Some(Denote(env, t)))
    decreases |Print(t)|, 1
  {
    match t
    case Empty => assert rd.takeApart(text) == Blank;
    case Atom(_) => AtomNode(rd, env, text, Print(t), fuel - 1);
    case Paren(_, _, _) => EvalParenthesised(rd, env, t, text, fuel);
    case Binary(_, _, _, _, _) =>
      OperandsAreShorter(t);
      EvalBinary(rd, env, t, text, fuel);
    case Match(_, _, _, _, _) => MatchNode(rd, env, text, t, fuel - 1);
  }

  lemma {:induction false} EvalBinary(rd: Reader, env: Env, t: Tree, text: string, fuel: nat)
    requires ReadsTrees(rd) && t.Binary? && t.rank < |OPERATORS| && t.rank != 2 && t.rank != 3
    requires Printable(t.l) && Printable(t.r)
    requires rd.takeApart(text) == FormAt(t.rank, Print(t.l), Print(t.r))
    requires |Print(t.l)| < |Print(t)| && |Print(t.r)| < |Print(t)| < fuel
    ensures Eval(rd, env, text, fuel) == Done(Some(Denote(env, t)))
    decreases |Print(t)|, 0, 1
  {
    EvalOperand(rd, env, t, t.l, fuel - 1);
    EvalOperand(rd, env, t, t.r, fuel - 1);
    BinaryNode(rd, env, text, t, fuel - 1);
  }

  lemma {:induction false} EvalParenthesised(rd: Reader, env: Env, t: Tree, text: string, fuel: nat)
    requires ReadsTrees(rd) && Printable(t) && t.Paren? && rd.takeApart(text) == Other(Print(t))
    requires |Print(t)| < fuel
    ensures Eval(rd, env, text, fuel) == Done(Some(Denote(env, t)))
    decreases |Print(t)|, 0
  {
    var inner := Padded(t.before, Print(t.inner), t.after);
    OperandsAreShorter(t);
    ReadsParen(rd, t);
    hide ReadsTrees, Padded, Print;
    EvalPrinted(rd, env, t.inner, t.before, t.after, fuel - 2);
    ParenNode(rd, env, text, Print(t), inner, fuel - 2, Denote(env, t.inner));
  }

  lemma {:induction false} EvalOperand(rd: Reader, env: Env, t: Tree, operand: Tree, fuel: nat)
    requires ReadsTrees(rd) && Printable(operand) && |Print(operand)| < |Print(t)| <= fuel
    ensures Eval(rd, env, Print(operand), fuel) == Done(Some(Denote(env, operand)))
    decreases |Print(t)|, 0, 0
  {
    assert Padded(0, Print(operand), 0) == Print(operand);
    EvalPrinted(rd, env, operand, 0, 0, fuel);
  }

  /** The evaluator computes what the tree denotes, for every printable tree, any
      substitution and any regex engine, and needs no more fuel than the text is long. */
  lemma ConditionIsCorrect(env: Env, t: Tree, lead: nat, trail: nat, fuel: nat)
    requires Printable(t) && |Padded(lead, Print(t), trail)| < fuel
    ensures EvalCond(env, Padded(lead, Print(t), trail), fuel) == Done(Some(Denote(env, t)))
    ensures EvalExpression(env, Some(Padded(lead, Print(t), trail)), fuel)
            == Done(Some(if Denote(env, t) == "" || Denote(env, t) == "0" then "0" else "1"))
  {
    TrueIs(Some(Denote(env, t)));
    ReaderReadsTrees();
    EvalPrinted(READER, env, t, lead, trail, fuel);
  }
}
