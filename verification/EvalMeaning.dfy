/**
 What conditions mean, said without the evaluator: which texts count as true, what each operator
 says of two texts, and that truth and comparison in the evaluator are just this.
 */
module EvalMeaning {
  import opened CString
  import opened EvalCompare

  /** All texts count as true but the empty one and 0. */
  predicate TrueText(s: string) { s != "" && s != "0" }

  function Bit(b: bool): string { if b then "1" else "0" }

  /** Two integer texts are ordered as numbers, any others as strings. */
  predicate Precedes(a: string, b: string) {
    if IsInteger(a) && IsInteger(b) then StrToL(a).value < StrToL(b).value else StrCmp(a, b) < 0
  }

  /** What an operator says of two texts.  Of =~ and !~ the right text is the pattern, and neither
      holds when it does not compile. */
  predicate Says(engine: RegexEngine, op: string, a: string, b: string) {
    if op == "||" then TrueText(a) || TrueText(b)
    else if op == "&&" then TrueText(a) && TrueText(b)
    else if op == "=~" then engine(b, a) == Some(true)
    else if op == "!~" then engine(b, a) == Some(false)
    else if op == "==" then !Precedes(a, b) && !Precedes(b, a)
    else if op == "!=" then Precedes(a, b) || Precedes(b, a)
    else if op == "<=" then !Precedes(b, a)
    else if op == "<" then Precedes(a, b)
    else if op == ">=" then !Precedes(a, b)
    else op == ">" && Precedes(b, a)
  }

  /** A value counts as true when it is a text that does. */
  predicate Counts(value: Option<string>) { value.Some? && TrueText(value.value) }

  lemma TrueIs(value: Option<string>)
    ensures EvalIsTrue(value) <==> Counts(value)
  {}

  lemma TruthIs(b: bool)
    ensures Truth(b) == Bit(b)
  {}

  lemma {:induction false} OrderPrecedes(a: string, b: string)
    ensures Order(a, b) < 0 <==> Precedes(a, b)
    ensures Order(a, b) > 0 <==> Precedes(b, a)
  {
    hide StrToL;
    if IsInteger(a) && IsInteger(b) {
      OrderOfIntegers(a, b);
      OrderOfIntegers(b, a);
    }
    OrderSwap(a, b);
    StrCmpSwap(a, b);
  }

  /** The comparison of two values is what the operator of that text says, and 0 when one of them
      is missing. */
  lemma CompareSays(engine: RegexEngine, k: nat, a: Option<string>, b: Option<string>)
    requires k < |COMPARISONS|
    ensures Compare(engine, a, COMPARISON_CODES[k], b)
            == Bit(a.Some? && b.Some? && Says(engine, COMPARISONS[k], a.value, b.value))
  {
    hide Order, Precedes;
    if a.Some? && b.Some? { OrderPrecedes(a.value, b.value); }
  }
}
