/**
 The condition evaluator: it rewrites text, without building a tree.  It splits at the
 first "||" outside parentheses, then at "&&", then at a comparison, and otherwise replaces
 leading parentheses by their value.
 */
module EvalCondition {
  import opened CString
  import opened EvalCompare
  import opened EvalMeaning

  const LOGICAL_OPS: seq<string> := ["||", "&&"]

  /** What the evaluator is given: the substitution of variables and the regex engine. */
  datatype Env = Env(sub: string -> string, engine: RegexEngine)

  /** Evaluation may go on for ever, so it is given fuel; with enough of it the outcome is a
      value, NULL when a closing parenthesis is missing. */
  datatype Outcome = OutOfFuel | Done(value: Option<string>)

  // -------------------------------------------------------------- pieces of text

  function TrimEnd(s: string): (r: string)
    ensures |r| <= |s|
  {
    if s != "" && s[|s| - 1] == ' ' then TrimEnd(s[..|s| - 1]) else s
  }

  function Next(level: nat, c: char): nat {
    if c == '(' then level + 1 else if c == ')' && level > 0 then level - 1 else level
  }

  /** The first place of `search` outside parentheses, scanning from the given level. */
  function Find(s: string, search: string, level: nat): (r: Option<nat>)
    ensures r.Some? ==> r.value < |s| && r.value + |search| <= |s|
  {
    if s == "" then None
    else
      var l := Next(level, s[0]);
      if l == 0 && search <= s then Some(0)
      else match Find(s[1..], search, l)
        case None => None
        case Some(p) => Some(p + 1)
  }

  function Shift(r: Option<nat>, n: nat): Option<nat> {
    match r
    case None => None
    case Some(p) => Some(n + p)
  }

  /** The first operator of the table, from the `k`-th on, found outside parentheses and not at
      the beginning: its rank and its place. */
  function SplitAt(e: string, ops: seq<string>, k: nat): (r: Option<(nat, nat)>)
    ensures r.Some? ==> k <= r.value.0 < |ops| && 0 < r.value.1 < |e| && r.value.1 + |ops[r.value.0]| <= |e|
    decreases |e|, |ops| - k
  {
    if k >= |ops| then None
    else match Find(e, ops[k], 0)
      case Some(p) => if p > 0 then Some((k, p)) else SplitAt(e, ops, k + 1)
      case None => SplitAt(e, ops, k + 1)
  }

  /** The place of the parenthesis that closes the level being scanned. */
  function Closing(s: string, level: nat): (r: Option<nat>)
    ensures r.Some? ==> r.value < |s|
  {
    if s == "" then None
    else if s[0] == ')' && level == 0 then Some(0)
    else match Closing(s[1..], if s[0] == '(' then level + 1 else if s[0] == ')' then level - 1 else level)
      case None => None
      case Some(p) => Some(p + 1)
  }

  function Text(value: Option<string>): string {
    if value.Some? then value.value else ""
  }

  predicate OpensParen(s: string) { s != "" && s[0] == '(' }

  // ------------------------------------------------------------------ evaluation

  /** How a text is taken apart. */
  datatype Form = Blank
                | Logic(disjunction: bool, left: string, right: string)
                | Comparing(comp: Comparison, left: string, right: string)
                | Other(text: string)

  function LeftOf(e: string, p: nat): string
    requires p <= |e|
  {
    TrimEnd(e[..p])
  }

  function RightOf(e: string, p: nat, op: string): string
    requires p + |op| <= |e|
  {
    SkipSpaces(e[p + |op|..])
  }

  /** The two tables are tried in order: logical operators first, then comparisons.  Every
      part is shorter than the text. */
  function TakeApart(expr: string): (f: Form)
    ensures f.Logic? || f.Comparing? ==> |f.left| < |expr| && |f.right| < |expr|
    ensures f.Other? ==> f.text != "" && |f.text| <= |expr|
  {
    var e := TrimEnd(SkipSpaces(expr));
    if e == "" then Blank
    else match SplitAt(e, LOGICAL_OPS, 0)
      case Some((logic, p)) => Logic(logic == 0, LeftOf(e, p), RightOf(e, p, LOGICAL_OPS[logic]))
      case None =>
        match SplitAt(e, COMPARISONS, 0)
        case Some((comp, p)) => Comparing(COMPARISON_CODES[comp], LeftOf(e, p), RightOf(e, p, COMPARISONS[comp]))
        case None => Other(e)
  }

  /** A leading parenthesis, what it encloses and what follows. */
  datatype Bracket = NoBracket | Unclosed | Bracket(inner: string, rest: string)

  function TakeBracket(e: string): (b: Bracket)
    ensures b.NoBracket? <==> !OpensParen(e)
    ensures b.Bracket? ==> |b.inner| + |b.rest| + 2 == |e|
  {
    if !OpensParen(e) then NoBracket
    else match Closing(e[1..], 0)
      case None => Unclosed
      case Some(p) => Bracket(e[1..p + 1], e[p + 2..])
  }

  /** The text after one pass of the loop. */
  function Unbracketed(value: Option<string>, rest: string): (e: string)
    ensures !OpensParen(Text(value)) ==> !OpensParen(e)
  {
    Text(value) + " " + rest
  }

  /** How the evaluator sees text. */
  datatype Reader = Reader(takeApart: string -> Form, takeBracket: string -> Bracket)

  const READER := Reader(TakeApart, TakeBracket)

  /** Evaluation of a text as a condition. */
  function EvalCond(env: Env, expr: string, fuel: nat): Outcome { Eval(READER, env, expr, fuel) }

  function Eval(rd: Reader, env: Env, expr: string, fuel: nat): Outcome
    decreases fuel, 2
  {
    if fuel == 0 then OutOfFuel
    else match rd.takeApart(expr)
      case Blank => Done(Some(""))
      case Logic(disjunction, left, right) => EvalLogic(rd, env, disjunction, left, right, fuel - 1)
      case Comparing(comp, left, right) => EvalComparison(rd, env, comp, left, right, fuel - 1)
      case Other(e) => EvalParens(rd, env, e, fuel - 1)
  }

  /** The second operand is evaluated only if the first one leaves the result open. */
  function EvalLogic(rd: Reader, env: Env, disjunction: bool, left: string, right: string, fuel: nat): Outcome
    decreases fuel, 3
  {
    match Eval(rd, env, left, fuel)
    case OutOfFuel => OutOfFuel
    case Done(v) =>
      if EvalIsTrue(v) == disjunction then Done(Some(Truth(disjunction)))
      else match Eval(rd, env, right, fuel)
        case OutOfFuel => OutOfFuel
        case Done(w) => Done(Some(Truth(EvalIsTrue(w))))
  }

  /** A regex comparison only substitutes variables in its operands. */
  function EvalComparison(rd: Reader, env: Env, comp: Comparison, left: string, right: string, fuel: nat): Outcome
    decreases fuel, 3
  {
    if comp == RegexMatching || comp == RegexNotMatching then
      Done(Some(Compare(env.engine, Some(env.sub(left)), comp, Some(env.sub(right)))))
    else
      var a, b := Eval(rd, env, left, fuel), Eval(rd, env, right, fuel);
      if a.OutOfFuel? || b.OutOfFuel? then OutOfFuel
      else Done(Some(Compare(env.engine, a.value, comp, b.value)))
  }

  /** The loop over leading parentheses: their value replaces them, unless nothing follows. */
  function EvalParens(rd: Reader, env: Env, e: string, fuel: nat): Outcome
    decreases fuel, 1
  {
    match rd.takeBracket(e)
    case NoBracket => Done(Some(env.sub(e)))
    case Unclosed => Done(None)
    case Bracket(inner, rest) =>
      if fuel == 0 then OutOfFuel
      else match Eval(rd, env, inner, fuel - 1)
        case OutOfFuel => OutOfFuel
        case Done(v) => if rest == "" then Done(v) else EvalParens(rd, env, Unbracketed(v, rest), fuel - 1)
  }

  /** `eval_expression` for a condition: NULL for a NULL expression, else "1" or "0". */
  function EvalExpression(env: Env, expr: Option<string>, fuel: nat): Outcome {
    if expr.None? then Done(None)
    else match EvalCond(env, expr.value, fuel)
      case OutOfFuel => OutOfFuel
      case Done(v) => Done(Some(Truth(EvalIsTrue(v))))
  }

  // ------------------------------------------------------------- what the pieces mean

  /** What || or && makes of the outcomes of its operands: when the first one decides, the second
      is not needed; otherwise the second decides. */
  predicate IsLogic(disjunction: bool, a: Outcome, b: Outcome, r: Outcome) {
    && (a.Done? && Counts(a.value) == disjunction ==> r == Done(Some(Bit(disjunction))))
    && (a.Done? && b.Done? ==>
          r == Done(Some(Bit(if disjunction then Counts(a.value) || Counts(b.value)
                             else Counts(a.value) && Counts(b.value)))))
  }

  lemma LogicMeans(rd: Reader, env: Env, disjunction: bool, left: string, right: string, fuel: nat)
    ensures IsLogic(disjunction, Eval(rd, env, left, fuel), Eval(rd, env, right, fuel),
                    EvalLogic(rd, env, disjunction, left, right, fuel))
  {
    hide EvalIsTrue, Counts;
    var a, b := Eval(rd, env, left, fuel), Eval(rd, env, right, fuel);
    if a.Done? { TrueIs(a.value); }
    if b.Done? { TrueIs(b.value); }
  }

  /** What a comparison operator makes of its operands: =~ and !~ only substitute, the others
      evaluate both, and a missing value compares as false. */
  lemma ComparisonMeans(rd: Reader, env: Env, k: nat, left: string, right: string, fuel: nat)
    requires k < |COMPARISONS|
    ensures var (op, r) := (COMPARISONS[k], EvalComparison(rd, env, COMPARISON_CODES[k], left, right, fuel));
            if op == "=~" || op == "!~" then r == Done(Some(Bit(Says(env.engine, op, env.sub(left), env.sub(right)))))
            else
              var (a, b) := (Eval(rd, env, left, fuel), Eval(rd, env, right, fuel));
              a.Done? && b.Done? ==>
                r == Done(Some(Bit(a.value.Some? && b.value.Some?
                                   && Says(env.engine, op, a.value.value, b.value.value))))
  {
    hide Says, Compare;
    CompareSays(env.engine, k, Some(env.sub(left)), Some(env.sub(right)));
    var a, b := Eval(rd, env, left, fuel), Eval(rd, env, right, fuel);
    if a.Done? && b.Done? { CompareSays(env.engine, k, a.value, b.value); }
  }

  /** A condition has no answer without expression; with one it is 0 when there is no value or the
      value is empty or 0, and otherwise 1. */
  lemma ExpressionMeans(env: Env, expr: string, fuel: nat)
    ensures EvalExpression(env, None, fuel) == Done(None)
    ensures match EvalCond(env, expr, fuel)
            case OutOfFuel => EvalExpression(env, Some(expr), fuel) == OutOfFuel
            case Done(v) =>
              EvalExpression(env, Some(expr), fuel)
              == Done(Some(if v == None || v == Some("") || v == Some("0") then "0" else "1"))
  {}

  // ----------------------------------------------------------------- termination

  /** More fuel changes nothing once there is an outcome. */
  lemma {:induction false} MoreFuel(rd: Reader, env: Env, expr: string, fuel: nat)
    requires Eval(rd, env, expr, fuel).Done?
    ensures Eval(rd, env, expr, fuel + 1) == Eval(rd, env, expr, fuel)
    decreases fuel, 2
  {
    match rd.takeApart(expr)
    case Blank =>
    case Logic(disjunction, left, right) =>
      MoreFuel(rd, env, left, fuel - 1);
      if Eval(rd, env, right, fuel - 1).Done? { MoreFuel(rd, env, right, fuel - 1); }
    case Comparing(comp, left, right) =>
      if comp != RegexMatching && comp != RegexNotMatching {
        MoreFuel(rd, env, left, fuel - 1);
        MoreFuel(rd, env, right, fuel - 1);
      }
    case Other(e) => MoreFuelParens(rd, env, e, fuel - 1);
  }

  lemma {:induction false} MoreFuelParens(rd: Reader, env: Env, e: string, fuel: nat)
    requires EvalParens(rd, env, e, fuel).Done?
    ensures EvalParens(rd, env, e, fuel + 1) == EvalParens(rd, env, e, fuel)
    decreases fuel, 1
  {
    match rd.takeBracket(e)
    case NoBracket =>
    case Unclosed =>
    case Bracket(inner, rest) =>
      MoreFuel(rd, env, inner, fuel - 1);
      if rest != "" {
        MoreFuelParens(rd, env, Unbracketed(Eval(rd, env, inner, fuel - 1).value, rest), fuel - 1);
      }
  }

  /** Every part of a text is shorter than the text. */
  ghost predicate Shortens(rd: Reader) {
    && (forall s :: var f := rd.takeApart(s);
          (f.Logic? || f.Comparing? ==> |f.left| < |s| && |f.right| < |s|) && (f.Other? ==> |f.text| <= |s|))
    && (forall s :: var b := rd.takeBracket(s);
          (b.NoBracket? <==> !OpensParen(s)) && (b.Bracket? ==> |b.inner| + 2 <= |s|))
  }

  /** The substitution never makes a text start with a parenthesis. */
  ghost predicate KeepsParensOut(sub: string -> string) {
    forall t :: !OpensParen(t) ==> !OpensParen(sub(t))
  }

  /** With such a substitution every evaluation ends, whatever the text: the recursive calls
      are on strictly shorter texts, so fuel one above the length is enough.  No value starts
      with a parenthesis, so the loop over leading parentheses runs at most once. */
  lemma Terminates(env: Env, expr: string, fuel: nat)
    requires KeepsParensOut(env.sub) && |expr| < fuel
    ensures var r := EvalCond(env, expr, fuel); r.Done? && !OpensParen(Text(r.value))
  {
    EvalTerminates(READER, env, expr, fuel);
  }

  lemma {:induction false} EvalTerminates(rd: Reader, env: Env, expr: string, fuel: nat)
    requires Shortens(rd) && KeepsParensOut(env.sub) && |expr| < fuel
    ensures var r := Eval(rd, env, expr, fuel); r.Done? && !OpensParen(Text(r.value))
    decreases |expr|
  {
    match rd.takeApart(expr)
    case Blank =>
    case Logic(disjunction, left, right) =>
      EvalTerminates(rd, env, left, fuel - 1);
      EvalTerminates(rd, env, right, fuel - 1);
    case Comparing(comp, left, right) =>
      if comp != RegexMatching && comp != RegexNotMatching {
        EvalTerminates(rd, env, left, fuel - 1);
        EvalTerminates(rd, env, right, fuel - 1);
      }
    case Other(e) =>
      match rd.takeBracket(e) {
        case NoBracket =>
        case Unclosed =>
        case Bracket(inner, rest) =>
          EvalTerminates(rd, env, inner, fuel - 2);
          SecondPassStops(rd, env, Eval(rd, env, inner, fuel - 2).value, rest, fuel - 2);
      }
  }

  /** After one pass of the loop the text does not start with a parenthesis any more. */
  lemma SecondPassStops(rd: Reader, env: Env, value: Option<string>, rest: string, fuel: nat)
    requires Shortens(rd) && KeepsParensOut(env.sub) && !OpensParen(Text(value))
    ensures var e := Unbracketed(value, rest);
            !OpensParen(e) && EvalParens(rd, env, e, fuel) == Done(Some(env.sub(e))) && !OpensParen(env.sub(e))
  {}

  lemma ReaderShortens()
    ensures Shortens(READER)
  {}

  /** The loop over leading parentheses, on any text that starts with a closed one: its inner
      text has a value, and what then stands before the rest is only substituted. */
  lemma LoopRunsOnce(env: Env, e: string, inner: string, rest: string, fuel: nat)
    requires KeepsParensOut(env.sub) && TakeBracket(e) == Bracket(inner, rest) && |inner| + 1 < fuel
    ensures var r := EvalCond(env, inner, fuel - 1);
            && r.Done? && !OpensParen(Text(r.value))
            && EvalParens(READER, env, e, fuel)
               == if rest == "" then r
                  else Done(Some(env.sub((if r.value.Some? then r.value.value else "") + " " + rest)))
  {
    hide TakeApart, TakeBracket;
    ReaderShortens();
    EvalTerminates(READER, env, inner, fuel - 1);
    if rest != "" {
      SecondPassStops(READER, env, EvalCond(env, inner, fuel - 1).value, rest, fuel - 1);
    }
  }

  lemma {:induction false} FindNone(s: string, search: string, level: nat)
    requires search != "" && search[0] !in s
    ensures Find(s, search, level) == None
  {
    if s != "" { FindNone(s[1..], search, Next(level, s[0])); }
  }

  predicate NoOperatorChar(s: string) {
    '|' !in s && '&' !in s && '=' !in s && '!' !in s && '<' !in s && '>' !in s
  }

  lemma {:induction false} NoSplit(e: string, ops: seq<string>, k: nat)
    requires NoOperatorChar(e) && (ops == LOGICAL_OPS || ops == COMPARISONS)
    ensures SplitAt(e, ops, k) == None
    decreases |ops| - k
  {
    if k < |ops| {
      FindNone(e, ops[k], 0);
      NoSplit(e, ops, k + 1);
    }
  }

  lemma NoOperatorMeansOther(e: string)
    requires NoOperatorChar(e) && e != "" && e[0] != ' ' && e[|e| - 1] != ' '
    ensures TakeApart(e) == Other(e)
  {
    NoSplit(e, LOGICAL_OPS, 0);
    NoSplit(e, COMPARISONS, 0);
  }

  function Looping(n: nat): string { "(x)" + (Spaces(n) + "y") }

  lemma BracketOfX(n: nat)
    ensures TakeBracket(Looping(n)) == Bracket("x", Spaces(n) + "y")
  {
    var e := Looping(n);
    assert e[1..][0] == 'x' && e[1..][1..][0] == ')';
    assert Closing(e[1..], 0) == Some(1);
    assert e[1..2] == "x" && e[3..] == Spaces(n) + "y";
  }

  /** What the divergence rests on. */
  ghost predicate SeesX(rd: Reader) {
    && rd.takeApart("x") == Other("x") && rd.takeBracket("x") == NoBracket
    && rd.takeApart(Looping(1)) == Other(Looping(1))
    && forall k: nat :: rd.takeBracket(Looping(k)) == Bracket("x", Spaces(k) + "y")
  }

  lemma {:induction false} LoopsForEver(rd: Reader, env: Env, n: nat, fuel: nat)
    requires env.sub("x") == "(x)" && SeesX(rd)
    ensures EvalParens(rd, env, Looping(n), fuel) == OutOfFuel
    ensures n == 1 ==> Eval(rd, env, Looping(n), fuel) == OutOfFuel
    decreases fuel
  {
    if fuel > 0 {
      assert Eval(rd, env, "x", fuel - 1) == if fuel == 1 then OutOfFuel else Done(Some("(x)"));
      assert Unbracketed(Some("(x)"), Spaces(n) + "y") == Looping(n + 1);
      LoopsForEver(rd, env, n + 1, fuel - 1);
      if n == 1 { LoopsForEver(rd, env, 1, fuel - 1); }
    }
  }

  lemma ReaderSeesX()
    ensures SeesX(READER)
  {
    hide TakeBracket, TakeApart;
    NoOperatorMeansOther("x");
    assert Looping(1) == "(x) y";
    NoOperatorMeansOther(Looping(1));
    forall k: nat ensures TakeBracket(Looping(k)) == Bracket("x", Spaces(k) + "y") { BracketOfX(k); }
  }

  /** Without that hypothesis evaluation need not end: if `x` stands for the text (x), then
      (x) y never has a value, because each pass of the loop puts the parentheses back. */
  lemma Diverges(env: Env, fuel: nat)
    requires env.sub("x") == "(x)"
    ensures EvalCond(env, "(x) y", fuel) == OutOfFuel
  {
    assert "(x) y" == Looping(1);
    ReaderSeesX();
    LoopsForEver(READER, env, 1, fuel);
  }
}
