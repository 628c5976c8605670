/**
 The condition evaluator as it runs: pointers moving over text, tables tried in a loop, and
 the loop that replaces leading parentheses.  Each method computes the function of
 `EvalCondition` that specifies it.
 */
module EvalLoops {
  import opened CString
  import opened EvalCompare
  import opened EvalCondition

  /** One step of the search, at a place of the text. */
  lemma FindFrom(s: string, search: string, ptr: nat, level: nat)
    requires ptr < |s|
    ensures var l := Next(level, s[ptr]);
            Find(s[ptr..], search, level)
            == if l == 0 && search <= s[ptr..] then Some(0) else Shift(Find(s[ptr + 1..], search, l), 1)
  {
    assert s[ptr..][1..] == s[ptr + 1..];
  }

  lemma FindNowhere(search: string, level: nat)
    ensures Find("", search, level) == None
  {}

  /** `eval_strstr_level` */
  method StrStrLevel(s: string, search: string) returns (pos: Option<nat>)
    ensures pos == Find(s, search, 0)
  {
    hide Find;
    var ptr, level := 0, 0;
    assert s[0..] == s;
    while ptr < |s|
      invariant 0 <= ptr <= |s| && 0 <= level
      invariant Find(s, search, 0) == Shift(Find(s[ptr..], search, level), ptr)
    {
      FindFrom(s, search, ptr, level);
      if s[ptr] == '(' {
        level := level + 1;
      } else if s[ptr] == ')' {
        if level > 0 { level := level - 1; }
      }
      if level == 0 && search <= s[ptr..] { return Some(ptr); }
      ptr := ptr + 1;
    }
    FindNowhere(search, level);
    return None;
  }

  method SkipLeading(s: string) returns (r: string)
    ensures r == SkipSpaces(s)
  {
    var i := 0;
    while i < |s| && s[i] == ' '
      invariant 0 <= i <= |s| && SkipSpaces(s[i..]) == SkipSpaces(s)
    {
      assert s[i..][1..] == s[i + 1..];
      i := i + 1;
    }
    return s[i..];
  }

  /** The first character is never taken: it is not a space where the program trims. */
  method TrimTrailing(s: string) returns (r: string)
    requires s != "" && s[0] != ' '
    ensures r == TrimEnd(s) && r != ""
  {
    var posEnd := |s| - 1;
    assert s[..posEnd + 1] == s;
    while posEnd > 0 && s[posEnd] == ' '
      invariant 0 <= posEnd < |s| && TrimEnd(s[..posEnd + 1]) == TrimEnd(s)
    {
      assert s[..posEnd + 1][..posEnd] == s[..posEnd];
      posEnd := posEnd - 1;
    }
    return s[..posEnd + 1];
  }

  /** The loop over a table of operators. */
  method FindOperator(e: string, ops: seq<string>) returns (found: Option<(nat, nat)>)
    ensures found == SplitAt(e, ops, 0)
  {
    var k := 0;
    while k < |ops|
      invariant 0 <= k <= |ops| && SplitAt(e, ops, k) == SplitAt(e, ops, 0)
    {
      var pos := StrStrLevel(e, ops[k]);
      if pos.Some? && pos.value > 0 { return Some((k, pos.value)); }
      k := k + 1;
    }
    return None;
  }

  method Split(e: string, p: nat, op: string) returns (left: string, right: string)
    requires 0 < p && p + |op| <= |e| && e[0] != ' '
    ensures left == LeftOf(e, p) && right == RightOf(e, p, op)
  {
    left := TrimTrailing(e[..p]);
    right := SkipLeading(e[p + |op|..]);
  }

  lemma {:induction false} TrimEndFirst(s: string)
    requires s != "" && s[0] != ' '
    ensures TrimEnd(s) != "" && TrimEnd(s)[0] == s[0]
  {
    if s[|s| - 1] == ' ' { TrimEndFirst(s[..|s| - 1]); }
  }

  method TakeTextApart(expr: string) returns (f: Form)
    ensures f == TakeApart(expr)
  {
    SkipSpacesFirst(expr);
    var e := SkipLeading(expr);
    if e == "" { return Blank; }
    TrimEndFirst(e);
    e := TrimTrailing(e);
    var logic := FindOperator(e, LOGICAL_OPS);
    if logic.Some? {
      var (k, p) := logic.value;
      var left, right := Split(e, p, LOGICAL_OPS[k]);
      return Logic(k == 0, left, right);
    }
    var comp := FindOperator(e, COMPARISONS);
    if comp.Some? {
      var (k, p) := comp.value;
      var left, right := Split(e, p, COMPARISONS[k]);
      return Comparing(COMPARISON_CODES[k], left, right);
    }
    return Other(e);
  }

  method TakeTextBracket(e: string) returns (b: Bracket)
    ensures b == TakeBracket(e)
  {
    if e == "" || e[0] != '(' { return NoBracket; }
    var level, pos := 0, 1;
    while pos < |e|
      invariant 1 <= pos <= |e| && 0 <= level
      invariant Closing(e[1..], 0) == Shift(Closing(e[pos..], level), pos - 1)
    {
      if e[pos] == '(' {
        level := level + 1;
      } else if e[pos] == ')' {
        if level == 0 { break; }
        level := level - 1;
      }
      assert e[pos..][1..] == e[pos + 1..];
      pos := pos + 1;
    }
    if pos == |e| || e[pos] != ')' { return Unclosed; }
    return Bracket(e[1..pos], e[pos + 1..]);
  }

  /** Evaluation of a text that has been taken apart. */
  function EvalForm(rd: Reader, env: Env, form: Form, fuel: nat): Outcome {
    match form
    case Blank => Done(Some(""))
    case Logic(disjunction, left, right) => EvalLogic(rd, env, disjunction, left, right, fuel)
    case Comparing(comp, left, right) => EvalComparison(rd, env, comp, left, right, fuel)
    case Other(e) => EvalParens(rd, env, e, fuel)
  }

  lemma EvalByForm(rd: Reader, env: Env, expr: string, fuel: nat)
    ensures Eval(rd, env, expr, fuel + 1) == EvalForm(rd, env, rd.takeApart(expr), fuel)
  {}

  method EvalBothSides(env: Env, disjunction: bool, left: string, right: string, fuel: nat) returns (r: Outcome)
    ensures r == EvalLogic(READER, env, disjunction, left, right, fuel)
    ensures IsLogic(disjunction, EvalCond(env, left, fuel), EvalCond(env, right, fuel), r)
    decreases fuel, 2
  {
    LogicMeans(READER, env, disjunction, left, right, fuel);
    var a := EvalExpressionCondition(env, left, fuel);
    if a.OutOfFuel? { return OutOfFuel; }
    var rc := EvalIsTrue(a.value);
    if (!rc && !disjunction) || (rc && disjunction) { return Done(Some(Truth(rc))); }
    var b := EvalExpressionCondition(env, right, fuel);
    if b.OutOfFuel? { return OutOfFuel; }
    return Done(Some(Truth(EvalIsTrue(b.value))));
  }

  method CompareBothSides(env: Env, comp: Comparison, left: string, right: string, fuel: nat) returns (r: Outcome)
    ensures r == EvalComparison(READER, env, comp, left, right, fuel)
    decreases fuel, 2
  {
    if comp == RegexMatching || comp == RegexNotMatching {
      return Done(Some(Compare(env.engine, Some(env.sub(left)), comp, Some(env.sub(right)))));
    }
    var a := EvalExpressionCondition(env, left, fuel);
    var b := EvalExpressionCondition(env, right, fuel);
    if a.OutOfFuel? || b.OutOfFuel? { return OutOfFuel; }
    return Done(Some(Compare(env.engine, a.value, comp, b.value)));
  }

  /** `eval_expression_condition` */
  method EvalExpressionCondition(env: Env, expr: string, fuel: nat) returns (r: Outcome)
    ensures r == EvalCond(env, expr, fuel)
    decreases fuel, 1
  {
    if fuel == 0 { return OutOfFuel; }
    var form := TakeTextApart(expr);
    r := EvalTheForm(env, form, fuel - 1);
    EvalByForm(READER, env, expr, fuel - 1);
  }

  method EvalTheForm(env: Env, form: Form, fuel: nat) returns (r: Outcome)
    ensures r == EvalForm(READER, env, form, fuel)
    decreases fuel, 3
  {
    match form {
      case Blank => r := Done(Some(""));
      case Logic(disjunction, left, right) => r := EvalBothSides(env, disjunction, left, right, fuel);
      case Comparing(comp, left, right) => r := CompareBothSides(env, comp, left, right, fuel);
      case Other(e) => r := ReplaceParens(env, e, fuel);
    }
  }

  /** The loop that evaluates a leading pair of parentheses and puts its value in its place. */
  method ReplaceParens(env: Env, text: string, fuel: nat) returns (r: Outcome)
    ensures r == EvalParens(READER, env, text, fuel)
    decreases fuel, 0
  {
    hide TakeBracket, TakeApart, Unbracketed;
    var expr2, left := text, fuel;
    while OpensParen(expr2)
      invariant 0 <= left <= fuel
      invariant EvalParens(READER, env, expr2, left) == EvalParens(READER, env, text, fuel)
      decreases left
    {
      var b := TakeTextBracket(expr2);
      if b.Unclosed? { return Done(None); }
      if left == 0 { return OutOfFuel; }
      r := EvalExpressionCondition(env, b.inner, left - 1);
      if r.OutOfFuel? || b.rest == "" { return; }
      expr2 := Unbracketed(r.value, b.rest);
      left := left - 1;
    }
    return Done(Some(env.sub(expr2)));
  }
}
