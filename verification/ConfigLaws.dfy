/**
 What setting, resetting and creating do to a value, for each type and every text, said without
 the transitions of `ConfigValue`.
 */
module ConfigLaws {
  import opened CString
  import opened ConfigValue

  /** Refused: the value stays. */
  predicate Refused(r: Outcome, value: Option<Value>) { r == Outcome(Error, value) }

  /** Accepted, and changed unless it was that value already. */
  predicate BecomesNum(r: Outcome, value: Option<Value>, n: int) {
    r.value == Some(Num(n)) && r.code == if value == Some(Num(n)) then Same else Changed
  }

  /** The number that relative steps start from: 0 for a null value. */
  predicate StartsAt(value: Option<Value>, v: int) { value == Some(Num(v)) || (value == None && v == 0) }

  // ------------------------------------------------------------------- ranged integers

  lemma AfterSigns(t: string)
    ensures "++" <= "++" + t && ("++" + t)[2..] == t
    ensures "--" <= "--" + t && ("--" + t)[2..] == t && !("++" <= "--" + t)
  {
    SignsDiffer("--" + t);
  }

  /** A step of a ranged integer, for every text behind the signs: without a number it is refused,
      up it is refused exactly above the maximum and down exactly below the minimum, and otherwise
      the value moves by that number, as a 32-bit `int`. */
  lemma IntegerSteps(o: Spec, value: Option<Value>, v: int, t: string)
    requires o.kind.Integer? && StartsAt(value, v)
    ensures var (n, up) := (StrToL(t).value, SetValue(o, value, Some("++" + t)));
            if !IsInteger(t) || ToInt(v + n) > o.kind.max then Refused(up, value)
            else BecomesNum(up, value, ToInt(v + n))
    ensures var (n, down) := (StrToL(t).value, SetValue(o, value, Some("--" + t)));
            if !IsInteger(t) || ToInt(v - n) < o.kind.min then Refused(down, value)
            else BecomesNum(down, value, ToInt(v - n))
  {
    hide StrToL, ToInt;
    AfterSigns(t);
  }

  /** A text that is no step: any way to write a number counts, white space, a sign and leading
      zeros included. */
  lemma IntegerIsSet(o: Spec, value: Option<Value>, t: string)
    requires o.kind.Integer? && !("++" <= t) && !("--" <= t)
    ensures var (n, r) := (ToInt(StrToL(t).value), SetValue(o, value, Some(t)));
            if IsInteger(t) && o.kind.min <= n <= o.kind.max then BecomesNum(r, value, n) else Refused(r, value)
  {
    hide StrToL, ToInt;
  }

  lemma IntegerStepUp(o: Spec, v: int, a: nat)
    requires o.kind.Integer? && WellFormed(o.kind) && o.kind.min <= v && v + a <= o.kind.max
    ensures After(o, Some(Num(v)), Up(a)) == Some(Num(v + a))
  {
    hide StrToL, Dec, ToInt;
    IntegerSteps(o, Some(Num(v)), v, Dec(a));
    DecRoundTrip(a);
    ToIntInRange(v + a);
  }

  lemma IntegerStepDown(o: Spec, v: int, a: nat)
    requires o.kind.Integer? && WellFormed(o.kind) && v <= o.kind.max && o.kind.min <= v - a
    ensures After(o, Some(Num(v)), Down(a)) == Some(Num(v - a))
  {
    hide StrToL, Dec, ToInt;
    IntegerSteps(o, Some(Num(v)), v, Dec(a));
    DecRoundTrip(a);
    ToIntInRange(v - a);
  }

  /** Inside the range steps add up, and a step back undoes a step. */
  lemma IntegerStepsAddUp(o: Spec, v: int, a: nat, b: nat)
    requires o.kind.Integer? && WellFormed(o.kind) && o.kind.min <= v && v + a + b <= o.kind.max
    ensures After(o, After(o, Some(Num(v)), Up(a)), Up(b)) == After(o, Some(Num(v)), Up(a + b)) == Some(Num(v + a + b))
    ensures After(o, After(o, Some(Num(v)), Up(a)), Down(a)) == Some(Num(v))
  {
    hide After, WellFormed;
    IntegerStepUp(o, v, a);
    IntegerStepUp(o, v + a, b);
    IntegerStepUp(o, v, a + b);
    IntegerStepDown(o, v + a, a);
  }

  // ---------------------------------------------------------------------- enumerations

  lemma RemIs(n: int, k: nat)
    requires k > 0
    ensures Rem(n, k) == if n >= 0 then n % k else -(-n % k)
  {}

  lemma StepUpIs(v: nat, n: int, k: nat)
    requires v < k <= INT_MAX
    ensures var r := ToInt(Rem(v + Rem(n, k), k));
            if n < 0 && v < -n % k then r < 0 else r == (v + n) % k
  {
    hide ToInt;
    RemIs(n, k);
    if n >= 0 {
      ModSum(v, n, k);
      ToIntInRange((v + n) % k);
    } else {
      var m := -n;
      ModSum(v, m, k);
      DivUnique(v - m % k, k, if v < m % k then -1 else 0, if v < m % k then v - m % k + k else v - m % k);
      ToIntInRange(v - m % k);
      if v < m % k { DivUnique(m % k - v, k, 0, m % k - v); }
    }
  }

  lemma StepDownIs(v: nat, n: int, k: nat)
    requires v < k <= INT_MAX
    ensures ToInt(Rem(v + k - Rem(n, k), k)) == (v - n) % k
  {
    hide ToInt;
    RemIs(n, k);
    if n >= 0 {
      ModSum(v, n, k);
      ModStep(v - n % k, k);
    } else {
      ModSum(v, -n, k);
      ModStep(v + -n % k, k);
    }
    ToIntInRange((v - n) % k);
  }

  /** A value that is set to an index, or refused below 0. */
  lemma EnumBecomes(o: Spec, value: Option<Value>, text: string, n: int)
    requires o.kind.Enum? && o.kind.names != [] && EnumTarget(o.kind.names, Start(value), text) == n
    ensures var r := SetValue(o, value, Some(text));
            if n < 0 then Refused(r, value) else BecomesNum(r, value, n)
  {
    hide EnumTarget;
  }

  lemma EnumTargets(names: seq<string>, v: nat, t: string)
    requires names != []
    ensures var (n, k) := (StrToL(t).value, |names|);
            && EnumTarget(names, v, "++" + t) == (if IsInteger(t) then ToInt(Rem(v + Rem(n, k), k)) else -1)
            && EnumTarget(names, v, "--" + t) == (if IsInteger(t) then ToInt(Rem(v + k - Rem(n, k), k)) else -1)
  {
    hide StrToL, ToInt, Rem;
    AfterSigns(t);
  }

  /** A step of an enumeration, for every text behind the signs: it goes round the circle of names
      by that number.  Back it is never refused; forward it is refused exactly when the number is
      negative and would pass the first name. */
  lemma EnumSteps(o: Spec, value: Option<Value>, v: nat, t: string)
    requires o.kind.Enum? && v < |o.kind.names| <= INT_MAX && StartsAt(value, v)
    ensures var (n, k, up) := (StrToL(t).value, |o.kind.names|, SetValue(o, value, Some("++" + t)));
            if !IsInteger(t) || (n < 0 && v < -n % k) then Refused(up, value) else BecomesNum(up, value, (v + n) % k)
    ensures var (n, k, down) := (StrToL(t).value, |o.kind.names|, SetValue(o, value, Some("--" + t)));
            if !IsInteger(t) then Refused(down, value) else BecomesNum(down, value, (v - n) % k)
  {
    hide StrToL, ToInt, Rem, EnumTarget, SetValue, IsInteger, Refused, BecomesNum;
    var (n, names) := (StrToL(t).value, o.kind.names);
    EnumTargets(names, v, t);
    EnumBecomes(o, value, "++" + t, EnumTarget(names, v, "++" + t));
    EnumBecomes(o, value, "--" + t, EnumTarget(names, v, "--" + t));
    StepUpIs(v, n, |names|);
    StepDownIs(v, n, |names|);
  }

  /** `i` is the first name equal to the text without case. */
  predicate FirstNamed(names: seq<string>, t: string, i: nat) {
    i < |names| && StrCaseCmp(names[i], t) == 0 && forall j :: 0 <= j < i ==> StrCaseCmp(names[j], t) != 0
  }

  predicate NoneNamed(names: seq<string>, t: string) { forall j :: 0 <= j < |names| ==> StrCaseCmp(names[j], t) != 0 }

  /** A text that is no step: the first name equal to it without case. */
  lemma EnumIsSet(o: Spec, value: Option<Value>, t: string)
    requires o.kind.Enum? && !("++" <= t) && !("--" <= t)
    ensures var r := SetValue(o, value, Some(t));
            (NoneNamed(o.kind.names, t) ==> Refused(r, value))
            && forall i: nat :: FirstNamed(o.kind.names, t, i) ==> BecomesNum(r, value, i)
  {
    IndexOfIsFirst(o.kind.names, t);
    hide StrCaseCmp;
  }

  // -------------------------------------------------------------------------- booleans

  /** The texts that stand for true and for false, in any case. */
  predicate MeansTrue(t: string) {
    || StrCaseCmp("on", t) == 0 || StrCaseCmp("yes", t) == 0 || StrCaseCmp("y", t) == 0
    || StrCaseCmp("true", t) == 0 || StrCaseCmp("t", t) == 0 || StrCaseCmp("1", t) == 0
  }

  predicate MeansFalse(t: string) {
    || StrCaseCmp("off", t) == 0 || StrCaseCmp("no", t) == 0 || StrCaseCmp("n", t) == 0
    || StrCaseCmp("false", t) == 0 || StrCaseCmp("f", t) == 0 || StrCaseCmp("0", t) == 0
  }

  lemma SixNames(a: string, b: string, c: string, d: string, e: string, f: string, t: string)
    ensures IndexOf([a, b, c, d, e, f], t) >= 0 <==>
            StrCaseCmp(a, t) == 0 || StrCaseCmp(b, t) == 0 || StrCaseCmp(c, t) == 0
            || StrCaseCmp(d, t) == 0 || StrCaseCmp(e, t) == 0 || StrCaseCmp(f, t) == 0
  {
    var names := [a, b, c, d, e, f];
    IndexOfIsFirst(names, t);
    hide StrCaseCmp, IndexOf;
    assert names[0] == a && names[1] == b && names[2] == c && names[3] == d && names[4] == e && names[5] == f;
  }

  lemma BooleanTextsAre(t: string)
    ensures IndexOf(BOOLEAN_TRUE, t) >= 0 <==> MeansTrue(t)
    ensures IndexOf(BOOLEAN_FALSE, t) >= 0 <==> MeansFalse(t)
  {
    hide StrCaseCmp, IndexOf;
    SixNames("on", "yes", "y", "true", "t", "1", t);
    SixNames("off", "no", "n", "false", "f", "0", t);
  }

  /** Setting a boolean: "toggle" flips it and makes null true; a text of one of the two tables
      sets it; any other text is refused. */
  lemma BooleanIsSet(o: Spec, value: Option<Value>, t: string)
    requires o.kind.Boolean? && (value == None || value == Some(Num(0)) || value == Some(Num(1)))
    ensures var r := SetValue(o, value, Some(t));
            if StrCaseCmp(t, "toggle") == 0 then
              r == Outcome(Changed, Some(Num(if value == Some(Num(1)) then 0 else 1)))
            else if MeansTrue(t) then BecomesNum(r, value, 1)
            else if MeansFalse(t) then BecomesNum(r, value, 0)
            else Refused(r, value)
  {
    hide StrCaseCmp, IndexOf, MeansTrue, MeansFalse;
    BooleanTextsAre(t);
  }

  // ----------------------------------------------------------- strings, null and resetting

  /** A string takes any text. */
  lemma StringIsSet(o: Spec, value: Option<Value>, t: string)
    requires o.kind.Str?
    ensures var r := SetValue(o, value, Some(t));
            r.value == Some(Text(t)) && r.code == if value == Some(Text(t)) then Same else Changed
  {}

  /** A NULL text and nulling make a value null where that is allowed; where it is not, the value
      stays, which only nulling reports as an error. */
  lemma NullIsSet(o: Spec, value: Option<Value>)
    ensures var (given, nulled) := (SetValue(o, value, None), SetNullValue(o, value));
            && given.value == nulled.value == (if o.nullAllowed then None else value)
            && given.code == (if given.value != value then Changed else Same)
            && nulled.code == (if !o.nullAllowed then Error else if value.Some? then Changed else Same)
  {}

  /** The value after a run of commands. */
  function RunFrom(o: Spec, value: Option<Value>, cmds: seq<Command>): Option<Value>
    decreases |cmds|
  {
    if cmds == [] then value else RunFrom(o, Apply(o, value, cmds[0]).value, cmds[1..])
  }

  /** A reset gives the default, or null without one, whatever the value was; without default it
      is refused where null is forbidden. */
  lemma ResetGivesDefault(o: Spec, value: Option<Value>)
    ensures var r := ResetValue(o, value);
            if o.default.None? && !o.nullAllowed then Refused(r, value)
            else r.value == o.default && r.code == if value == o.default then Same else Changed
  {}

  lemma {:induction false} RunAppends(o: Spec, value: Option<Value>, a: seq<Command>, b: seq<Command>)
    ensures RunFrom(o, value, a + b) == RunFrom(o, RunFrom(o, value, a), b)
    decreases |a|
  {
    if a == [] {
      assert a + b == b;
    } else {
      assert (a + b)[1..] == a[1..] + b;
      RunAppends(o, Apply(o, value, a[0]).value, a[1..], b);
    }
  }

  /** After a reset nothing is left of what came before: a run with a reset in it ends as the rest of
      the run does from the default, or from null without one. */
  lemma ResetForgets(o: Spec, value: Option<Value>, before: seq<Command>, after: seq<Command>)
    requires o.default.Some? || o.nullAllowed
    ensures RunFrom(o, value, before + [Reset] + after) == RunFrom(o, o.default, after)
  {
    var v := RunFrom(o, value, before);
    ResetGivesDefault(o, v);
    RunAppends(o, value, before + [Reset], after);
    RunAppends(o, value, before, [Reset]);
    assert RunFrom(o, v, [Reset]) == o.default by {
      assert [Reset][1..] == [];
      assert RunFrom(o, o.default, []) == o.default;
    }
  }

  // ------------------------------------------------------------------------ new options

  /** `n` is the number of the range nearest to the one wanted. */
  predicate Nearest(min: int, max: int, wanted: int, n: int) {
    if wanted < min then n == min else if max < wanted then n == max else n == wanted
  }

  /** The value that a text gives a new option: true for a text that stands for it, else false; the
      first name equal without case, else the first of all; the number of the range nearest to the
      one in the text, or to 0; the text itself. */
  predicate IsFirstValue(kind: Kind, t: string, value: Value) {
    match kind
    case Boolean => value == Num(if MeansTrue(t) then 1 else 0)
    case Enum(names) =>
      value.Num? && ((NoneNamed(names, t) && value.n == 0) || (value.n >= 0 && FirstNamed(names, t, value.n)))
    case Integer(min, max) => value.Num? && Nearest(min, max, if IsInteger(t) then StrToL(t).value else 0, value.n)
    case Str => value == Text(t)
  }

  predicate IsFirst(kind: Kind, t: Option<string>, value: Option<Value>) {
    if t.None? then value.None? else value.Some? && IsFirstValue(kind, t.value, value.value)
  }

  lemma InitialIsFirst(kind: Kind, t: string)
    requires WellFormed(kind)
    ensures IsFirstValue(kind, t, InitialValue(kind, t))
  {
    hide StrToL, StrCaseCmp, ToInt;
    match kind
    case Boolean => BooleanTextsAre(t);
    case Enum(names) => IndexOfIsFirst(names, t);
    case Integer(min, max) =>
      var wanted := if IsInteger(t) then StrToL(t).value else 0;
      ToIntInRange(if wanted < min then min else if max < wanted then max else wanted);
    case Str =>
  }

  lemma OptionIsFirst(kind: Kind, t: Option<string>)
    requires WellFormed(kind)
    ensures IsFirst(kind, t, InitialOption(kind, t))
  {
    hide IsFirstValue, InitialValue;
    if t.Some? { InitialIsFirst(kind, t.value); }
  }

  /** A new option has the default of its default text and the value of its value text; where null
      is forbidden a missing one of the two is taken from the other. */
  predicate MadeFrom(kind: Kind, nullAllowed: bool, default: Option<string>, value: Option<string>,
                     o: Spec, first: Option<Value>)
  {
    && o.kind == kind && o.nullAllowed == nullAllowed
    && IsFirst(kind, if default.None? && !nullAllowed then value else default, o.default)
    && IsFirst(kind, if value.None? && !nullAllowed then default else value, first)
  }

  /** Every new option is made like this; it is refused only where null is forbidden and both texts
      are missing. */
  lemma NewOptionIs(kind: Kind, nullAllowed: bool, default: Option<string>, value: Option<string>)
    requires WellFormed(kind)
    ensures match NewOption(kind, nullAllowed, default, value)
            case None => !nullAllowed && default.None? && value.None?
            case Some((o, first)) => MadeFrom(kind, nullAllowed, default, value, o, first)
  {
    hide IsFirst, InitialOption, WellFormed;
    OptionIsFirst(kind, default);
    OptionIsFirst(kind, value);
    NoFirst(kind);
  }

  lemma NoFirst(kind: Kind)
    ensures InitialOption(kind, None) == None && IsFirst(kind, None, None)
  {}
}
