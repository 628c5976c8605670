/**
 Truth of a value and comparison of two values, as the condition evaluator does them.
 */
module EvalCompare {
  import opened CString

  /** The comparison operators, in the order in which they are looked for. */
  datatype Comparison = RegexMatching | RegexNotMatching | Equal | NotEqual
                      | LessEqual | Less | GreaterEqual | Greater

  const COMPARISONS: seq<string> := ["=~", "!~", "==", "!=", "<=", "<", ">=", ">"]
  const COMPARISON_CODES: seq<Comparison> :=
    [RegexMatching, RegexNotMatching, Equal, NotEqual, LessEqual, Less, GreaterEqual, Greater]

  const STR_TRUE := "1"
  const STR_FALSE := "0"

  /** Compiles the first text and matches the second against it: `None` when it does not compile. */
  type RegexEngine = (string, string) -> Option<bool>

  function Truth(b: bool): string { if b then STR_TRUE else STR_FALSE }

  /** `eval_is_true`: a value is true unless it is NULL, empty or "0". */
  predicate EvalIsTrue(value: Option<string>) {
    value.Some? && value.value != "" && value.value != "0"
  }

  /** Empty texts and texts between double quotes ask for a comparison as strings. */
  predicate Quoted(s: string) {
    s == "" || (s[0] == '"' && s[|s| - 1] == '"')
  }

  predicate ComparedAsStrings(a: string, b: string) {
    (Quoted(a) && Quoted(b)) || !IsInteger(a) || !IsInteger(b)
  }

  function Order(a: string, b: string): int {
    if ComparedAsStrings(a, b) then StrCmp(a, b)
    else
      var x, y := StrToL(a).value, StrToL(b).value;
      if x < y then -1 else if x > y then 1 else 0
  }

  predicate Holds(comparison: Comparison, rc: int) {
    match comparison
    case Equal => rc == 0
    case NotEqual => rc != 0
    case LessEqual => rc <= 0
    case Less => rc < 0
    case GreaterEqual => rc >= 0
    case Greater => rc > 0
    case _ => rc != 0
  }

  function Compare(engine: RegexEngine, expr1: Option<string>, comparison: Comparison, expr2: Option<string>)
    : string
  {
    if expr1.None? || expr2.None? then STR_FALSE
    else if comparison == RegexMatching || comparison == RegexNotMatching then
      var m := engine(expr2.value, expr1.value);
      Truth(m.Some? && (m.value != (comparison == RegexNotMatching)))
    else Truth(Holds(comparison, Order(expr1.value, expr2.value)))
  }

  // ------------------------------------------------------------- laws of the order

  predicate True(engine: RegexEngine, a: string, comparison: Comparison, b: string) {
    Compare(engine, Some(a), comparison, Some(b)) == STR_TRUE
  }

  function Flip(comparison: Comparison): Comparison {
    match comparison
    case LessEqual => GreaterEqual
    case Less => Greater
    case GreaterEqual => LessEqual
    case Greater => Less
    case same => same
  }

  lemma OrderSwap(a: string, b: string)
    ensures Order(a, b) == -Order(b, a)
  {
    StrCmpSwap(a, b);
  }

  /** Exactly one of <, ==, > holds; the other operators are the disjunctions; swapping the
      operands flips the operator. */
  lemma ComparisonLaws(engine: RegexEngine, a: string, b: string)
    ensures var lt, eq, gt := True(engine, a, Less, b), True(engine, a, Equal, b), True(engine, a, Greater, b);
            && (lt || eq || gt) && !(lt && eq) && !(eq && gt) && !(lt && gt)
            && (True(engine, a, LessEqual, b) <==> lt || eq)
            && (True(engine, a, GreaterEqual, b) <==> gt || eq)
            && (True(engine, a, NotEqual, b) <==> lt || gt)
    ensures forall op: Comparison :: op != RegexMatching && op != RegexNotMatching ==>
              (True(engine, a, op, b) <==> True(engine, b, Flip(op), a))
  {
    hide Order;
    OrderSwap(a, b);
    TruthIsTrue();
  }

  lemma TruthIsTrue()
    ensures Truth(true) == STR_TRUE && Truth(false) != STR_TRUE
  {}

  /** A quoted text that is not empty is not an integer. */
  lemma IntegerIsNotQuoted(a: string)
    requires a != "" && IsInteger(a)
    ensures !Quoted(a)
  {
    assert IsDigit(a[0]) || IsSpace(a[0]) || a[0] == '-' || a[0] == '+';
  }

  /** Among integer texts the order is that of the numbers, so it is transitive. */
  lemma OrderOfIntegers(a: string, b: string)
    requires IsInteger(a) && IsInteger(b)
    ensures Order(a, b) < 0 <==> StrToL(a).value < StrToL(b).value
    ensures Order(a, b) == 0 <==> StrToL(a).value == StrToL(b).value
  {
    if a != "" { IntegerIsNotQuoted(a); }
    if b != "" { IntegerIsNotQuoted(b); }
  }

  predicate ExactlyTwo(p: bool, q: bool, r: bool) {
    (p && q && !r) || (p && !q && r) || (!p && q && r)
  }

  /** Unless exactly two of three texts are integers, all comparisons among them are made in one
      way, and the order is transitive. */
  lemma OrderTransitive(a: string, b: string, c: string)
    requires !ExactlyTwo(IsInteger(a), IsInteger(b), IsInteger(c))
    requires Order(a, b) <= 0 && Order(b, c) <= 0
    ensures Order(a, c) <= 0
    ensures Order(a, b) < 0 || Order(b, c) < 0 ==> Order(a, c) < 0
  {
    if IsInteger(a) && IsInteger(b) && IsInteger(c) {
      OrderOfIntegers(a, b); OrderOfIntegers(b, c); OrderOfIntegers(a, c);
    } else {
      StrCmpTrans(a, b, c);
    }
  }

  /** Across the mix it is not: 9 < 10 as numbers, "10" < "1a" < "9" as strings. */
  lemma OrderHasCycle(engine: RegexEngine)
    ensures True(engine, "9", Less, "10") && True(engine, "10", Less, "1a") && True(engine, "1a", Less, "9")
  {
    hide StrToL;
    CycleNumbers();
    OrderOfIntegers("9", "10");
    assert StrCmp("10", "1a") < 0 by { assert "10"[1..] == "0" && "1a"[1..] == "a"; }
  }

  lemma CycleNumbers()
    ensures StrToL("9") == Parsed(9, "") && StrToL("10") == Parsed(10, "") && !IsInteger("1a")
  {
    assert StrToL("9") == Parsed(9, "") by { assert Dec(9) == "9"; DecRoundTrip(9); }
    assert StrToL("10") == Parsed(10, "") by { assert Dec(10) == "10"; DecRoundTrip(10); }
    assert !IsInteger("1a") by {
      var s := "1a";
      assert s[1..] == "a" && DigitRun("a") == 0 && DigitRun(s) == 1;
    }
  }
}
