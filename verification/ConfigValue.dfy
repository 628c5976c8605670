/**
 The typed values of options: booleans, enumerated and ranged integers, strings, each of
 which may be null.  Setting, resetting and nulling are transitions on a value.
 */
module ConfigValue {
  import opened CString

  datatype Kind = Boolean | Enum(names: seq<string>) | Integer(min: int, max: int) | Str

  /** What the `value` pointer of an option points at. */
  datatype Value = Num(n: int) | Text(s: string)

  datatype Code = Error | Same | Changed

  datatype Spec = Spec(kind: Kind, nullAllowed: bool, default: Option<Value>)

  datatype Outcome = Outcome(code: Code, value: Option<Value>)

  // --------------------------------------------------------------------- C integers

  /** The remainder of truncated division, section 6.5.5 of ISO/IEC 9899:2011. */
  function Rem(a: int, b: int): int
    requires b > 0
  {
    if a >= 0 then a % b else -(-a % b)
  }

  /** Conversion to a 32-bit `int`. */
  function ToInt(n: int): int { (n - INT_MIN) % 0x1_0000_0000 + INT_MIN }

  lemma ToIntInRange(n: int)
    ensures INT_MIN <= ToInt(n) <= INT_MAX
    ensures INT_MIN <= n <= INT_MAX ==> ToInt(n) == n
    ensures exists q :: n == ToInt(n) + q * 0x1_0000_0000
  {
    assert n == ToInt(n) + (n - INT_MIN) / 0x1_0000_0000 * 0x1_0000_0000;
  }

  // -------------------------------------------------------------------------- texts

  const BOOLEAN_TRUE := ["on", "yes", "y", "true", "t", "1"]
  const BOOLEAN_FALSE := ["off", "no", "n", "false", "f", "0"]

  predicate BooleanIsValid(text: string) {
    IndexOf(BOOLEAN_TRUE, text) >= 0 || IndexOf(BOOLEAN_FALSE, text) >= 0
  }

  function StringToBoolean(text: string): int {
    if IndexOf(BOOLEAN_TRUE, text) >= 0 then 1 else 0
  }

  // -------------------------------------------------------------------- transitions

  /** The index that a relative step or a name asks for, `start` being the current one:
      -1 when the step is no number or no name is equal. */
  function EnumTarget(names: seq<string>, start: int, text: string): int
    requires names != []
  {
    var k := |names|;
    if "++" <= text then
      if IsInteger(text[2..]) then ToInt(Rem(start + Rem(StrToL(text[2..]).value, k), k)) else -1
    else if "--" <= text then
      if IsInteger(text[2..]) then ToInt(Rem(start + k - Rem(StrToL(text[2..]).value, k), k)) else -1
    else IndexOf(names, text)
  }

  /** For a ranged integer only one bound is tested after a relative step. */
  function IntegerTarget(min: int, max: int, start: int, text: string): Option<int> {
    if "++" <= text then
      var n := ToInt(start + StrToL(text[2..]).value);
      if IsInteger(text[2..]) && n <= max then Some(n) else None
    else if "--" <= text then
      var n := ToInt(start - StrToL(text[2..]).value);
      if IsInteger(text[2..]) && n >= min then Some(n) else None
    else
      var n := ToInt(StrToL(text).value);
      if IsInteger(text) && min <= n <= max then Some(n) else None
  }

  /** A null value counts as 0 in a relative step. */
  function Start(value: Option<Value>): int {
    if value.Some? && value.value.Num? then value.value.n else 0
  }

  function BooleanTarget(value: Option<Value>, text: string): Option<int> {
    if StrCaseCmp(text, "toggle") == 0 then Some(if value == Some(Num(1)) then 0 else 1)
    else if BooleanIsValid(text) then Some(StringToBoolean(text))
    else None
  }

  /** The value that a text asks for. */
  function Target(kind: Kind, value: Option<Value>, text: string): Option<Value> {
    match kind
    case Boolean =>
      (match BooleanTarget(value, text) case None => None case Some(n) => Some(Num(n)))
    case Enum(names) =>
      if names == [] then None
      else var n := EnumTarget(names, Start(value), text); if n >= 0 then Some(Num(n)) else None
    case Integer(min, max) =>
      (match IntegerTarget(min, max, Start(value), text) case None => None case Some(n) => Some(Num(n)))
    case Str => Some(Text(text))
  }

  /** `config_file_option_set`; a NULL text asks for a null value. */
  function SetValue(o: Spec, value: Option<Value>, text: Option<string>): Outcome {
    match text
    case None =>
      if o.nullAllowed && value.Some? then Outcome(Changed, None) else Outcome(Same, value)
    case Some(t) =>
      match Target(o.kind, value, t)
      case None => Outcome(Error, value)
      case Some(v) => Outcome(if value == Some(v) then Same else Changed, Some(v))
  }

  /** `config_file_option_reset` */
  function ResetValue(o: Spec, value: Option<Value>): Outcome {
    if o.default.Some? then Outcome(if value == o.default then Same else Changed, o.default)
    else if o.nullAllowed then Outcome(if value == None then Same else Changed, None)
    else Outcome(Error, value)
  }

  /** `config_file_option_set_null` */
  function SetNullValue(o: Spec, value: Option<Value>): Outcome {
    if !o.nullAllowed then Outcome(Error, value)
    else Outcome(if value == None then Same else Changed, None)
  }

  /** The value of a new option, from a text: no error is possible, a bad text gives the first
      name or 0, and a number is brought into the range. */
  function InitialValue(kind: Kind, text: string): Value {
    match kind
    case Boolean => Num(StringToBoolean(text))
    case Enum(names) => Num(if IndexOf(names, text) >= 0 then IndexOf(names, text) else 0)
    case Integer(min, max) =>
      var number := if IsInteger(text) then StrToL(text).value else 0;
      Num(ToInt(if number < min then min else if number > max then max else number))
    case Str => Text(text)
  }

  function InitialOption(kind: Kind, text: Option<string>): Option<Value> {
    match text case None => None case Some(t) => Some(InitialValue(kind, t))
  }

  /** The checks of `config_file_new_option` on its default value and value: the option and
      its first value, or NULL when null is forbidden and neither is given. */
  function NewOption(kind: Kind, nullAllowed: bool, default: Option<string>, value: Option<string>)
    : Option<(Spec, Option<Value>)>
  {
    var d := if !nullAllowed && default.None? then value else default;
    var v := if !nullAllowed && value.None? then default else value;
    if !nullAllowed && d.None? then None
    else Some((Spec(kind, nullAllowed, InitialOption(kind, d)), InitialOption(kind, v)))
  }

  // ---------------------------------------------------------------------- invariants

  predicate WellFormed(kind: Kind) {
    match kind
    case Enum(names) => 0 < |names| <= INT_MAX
    case Integer(min, max) => INT_MIN <= min <= max <= INT_MAX
    case _ => true
  }

  predicate InRange(kind: Kind, value: Option<Value>) {
    value.Some? ==>
      match kind
      case Boolean => value.value == Num(0) || value.value == Num(1)
      case Enum(names) => value.value.Num? && 0 <= value.value.n < |names|
      case Integer(min, max) => value.value.Num? && min <= value.value.n <= max
      case Str => value.value.Text?
  }

  predicate ValidSpec(o: Spec) {
    WellFormed(o.kind) && InRange(o.kind, o.default) && (!o.nullAllowed ==> o.default.Some?)
  }

  predicate ValidValue(o: Spec, value: Option<Value>) {
    InRange(o.kind, value) && (!o.nullAllowed ==> value.Some?)
  }

  /** The one way for a value to leave its range: a relative step of a ranged integer that is
      accepted beyond the bound that is not tested. */
  predicate Harmless(o: Spec, value: Option<Value>, text: Option<string>) {
    o.kind.Integer? && text.Some? ==>
      var t := text.value;
      && ("++" <= t && IsInteger(t[2..]) ==> ToInt(Start(value) + StrToL(t[2..]).value) >= o.kind.min)
      && ("--" <= t && IsInteger(t[2..]) ==> ToInt(Start(value) - StrToL(t[2..]).value) <= o.kind.max)
  }

  lemma RemBounds(a: int, b: int)
    requires b > 0
    ensures -b < Rem(a, b) < b
  {}

  lemma EnumTargetBounds(names: seq<string>, start: int, text: string)
    requires 0 < |names| <= INT_MAX && 0 <= start < |names|
    ensures EnumTarget(names, start, text) < |names|
  {
    hide Rem, IsInteger, StrToL;
    var k := |names|;
    if "++" <= text && IsInteger(text[2..]) {
      RemBounds(start + Rem(StrToL(text[2..]).value, k), k);
    } else if "--" <= text && IsInteger(text[2..]) {
      RemBounds(start + k - Rem(StrToL(text[2..]).value, k), k);
    }
  }

  /** The value that is set is the old one or the target of a text. */
  lemma EnumSetKeepsValid(o: Spec, value: Option<Value>, text: string)
    requires o.kind.Enum? && ValidSpec(o) && ValidValue(o, value)
    ensures ValidValue(o, SetValue(o, value, Some(text)).value)
  {
    var n := EnumTarget(o.kind.names, Start(value), text);
    assert n < |o.kind.names| by { EnumTargetBounds(o.kind.names, Start(value), text); }
    assert Target(o.kind, value, text) == if n >= 0 then Some(Num(n)) else None;
  }

  lemma IntegerSetKeepsValid(o: Spec, value: Option<Value>, text: string)
    requires o.kind.Integer? && ValidSpec(o) && ValidValue(o, value)
    ensures ValidValue(o, SetValue(o, value, Some(text)).value) <==> Harmless(o, value, Some(text))
  {
    SignsDiffer(text);
  }

  /** A set keeps the option valid exactly when it is harmless. */
  lemma SetKeepsValid(o: Spec, value: Option<Value>, text: Option<string>)
    requires ValidSpec(o) && ValidValue(o, value)
    ensures ValidValue(o, SetValue(o, value, text).value) <==> Harmless(o, value, text)
  {
    if text.Some? {
      match o.kind
      case Enum(_) => EnumSetKeepsValid(o, value, text.value);
      case Integer(_, _) => IntegerSetKeepsValid(o, value, text.value);
      case _ =>
    }
  }

  lemma SignsDiffer(text: string)
    ensures !("++" <= text && "--" <= text)
  {
    assert "++" <= text ==> text[0] == '+';
    assert "--" <= text ==> text[0] == '-';
  }

  /** A relative step forward from a value in range, without overflow, is harmless. */
  lemma ForwardStepsAreHarmless(o: Spec, value: Option<Value>, text: string)
    requires o.kind.Integer? && ValidSpec(o) && ValidValue(o, value) && value.Some?
    requires |text| >= 2 && StrToL(text[2..]).value >= 0
    requires "++" <= text ==> Start(value) + StrToL(text[2..]).value <= INT_MAX
    requires "--" <= text ==> Start(value) - StrToL(text[2..]).value >= INT_MIN
    ensures Harmless(o, value, Some(text))
  {}

  lemma InitialInRange(kind: Kind, text: string)
    requires WellFormed(kind)
    ensures InRange(kind, Some(InitialValue(kind, text)))
  {}

  function Distance(a: int, b: int): nat { if a < b then b - a else a - b }

  /** The number of a new option is the one of its range nearest to the number in its text. */
  lemma InitialIsNearest(min: int, max: int, text: string, k: int)
    requires WellFormed(Integer(min, max)) && min <= k <= max
    ensures var wanted := if IsInteger(text) then StrToL(text).value else 0;
            var v := InitialValue(Integer(min, max), text);
            v.Num? && min <= v.n <= max && Distance(v.n, wanted) <= Distance(k, wanted)
  {
    hide StrToL;
    InitialInRange(Integer(min, max), text);
  }

  /** A new option is valid; it is refused only when null is forbidden and no text is given. */
  lemma NewOptionIsValid(kind: Kind, nullAllowed: bool, default: Option<string>, value: Option<string>)
    requires WellFormed(kind)
    ensures match NewOption(kind, nullAllowed, default, value)
            case None => !nullAllowed && default.None? && value.None?
            case Some((o, v)) => ValidSpec(o) && ValidValue(o, v)
  {
    if default.Some? { InitialInRange(kind, default.value); }
    if value.Some? { InitialInRange(kind, value.value); }
  }

  // ------------------------------------------------------------------------ whole runs

  datatype Command = Set(text: Option<string>) | Reset | SetNull

  function Apply(o: Spec, value: Option<Value>, cmd: Command): Outcome {
    match cmd
    case Set(text) => SetValue(o, value, text)
    case Reset => ResetValue(o, value)
    case SetNull => SetNullValue(o, value)
  }

  /** The value is valid now and after every command. */
  predicate AlwaysValid(o: Spec, value: Option<Value>, cmds: seq<Command>)
    decreases |cmds|
  {
    ValidValue(o, value) && (cmds != [] ==> AlwaysValid(o, Apply(o, value, cmds[0]).value, cmds[1..]))
  }

  /** Every set of the run is harmless when it is made. */
  predicate AllHarmless(o: Spec, value: Option<Value>, cmds: seq<Command>)
    decreases |cmds|
  {
    cmds != [] ==>
      && (cmds[0].Set? ==> Harmless(o, value, cmds[0].text))
      && AllHarmless(o, Apply(o, value, cmds[0]).value, cmds[1..])
  }

  /** Over a whole run values stay in range and null stays forbidden where it is, if and only
      if no relative step of a ranged integer goes past the bound that is not tested. */
  lemma {:induction false} RunsStayValid(o: Spec, value: Option<Value>, cmds: seq<Command>)
    requires ValidSpec(o) && ValidValue(o, value)
    ensures AlwaysValid(o, value, cmds) <==> AllHarmless(o, value, cmds)
    decreases |cmds|
  {
    if cmds != [] {
      var next := Apply(o, value, cmds[0]).value;
      if cmds[0].Set? { SetKeepsValid(o, value, cmds[0].text); }
      if ValidValue(o, next) { RunsStayValid(o, next, cmds[1..]); }
    }
  }

  /** Booleans, enumerations and strings need no hypothesis. */
  lemma {:induction false} OtherKindsStayValid(o: Spec, value: Option<Value>, cmds: seq<Command>)
    requires ValidSpec(o) && ValidValue(o, value) && !o.kind.Integer?
    ensures AlwaysValid(o, value, cmds)
    decreases |cmds|
  {
    if cmds != [] {
      if cmds[0].Set? { SetKeepsValid(o, value, cmds[0].text); }
      OtherKindsStayValid(o, Apply(o, value, cmds[0]).value, cmds[1..]);
    }
  }

  /** An integer does leave its range: a negative step, or a step from null. */
  lemma RangeCanBeLeft()
    ensures var o := Spec(Integer(0, 10), false, Some(Num(5)));
            SetValue(o, Some(Num(5)), Some("++-6")) == Outcome(Changed, Some(Num(-1)))
    ensures var o := Spec(Integer(5, 10), true, None);
            SetValue(o, None, Some("++1")) == Outcome(Changed, Some(Num(1)))
  {
    hide StrToL;
    ReadsMinusSix();
    ReadsOne();
  }

  lemma ReadsMinusSix()
    ensures StrToL("++-6"[2..]) == Parsed(-6, "")
  {
    hide StrToL;
    assert Dec(-6) == "-6" by { assert DecNat(6) == "6"; }
    DecRoundTrip(-6);
    assert "++-6"[2..] == "-6";
  }

  lemma ReadsOne()
    ensures StrToL("++1"[2..]) == Parsed(1, "")
  {
    hide StrToL;
    assert Dec(1) == "1";
    DecRoundTrip(1);
    assert "++1"[2..] == "1";
  }

  // ------------------------------------------------------- stepping an enumeration

  function Up(a: nat): string { "++" + Dec(a) }

  function Down(a: nat): string { "--" + Dec(a) }

  lemma {:induction false} ModShift(x: int, q: nat, k: nat)
    requires k > 0
    ensures (x + q * k) % k == x % k && (x - q * k) % k == x % k
  {
    if q > 0 {
      ModShift(x, q - 1, k);
      assert x + q * k == x + (q - 1) * k + k && x - q * k == x - (q - 1) * k - k;
      ModStep(x + (q - 1) * k, k);
      ModStep(x - q * k, k);
    }
  }

  lemma ModStep(x: int, k: nat)
    requires k > 0
    ensures (x + k) % k == x % k
  {
    var q, r := x / k, x % k;
    assert x + k == (q + 1) * k + r;
    DivUnique(x + k, k, q + 1, r);
  }

  lemma DivUnique(x: int, k: nat, q: int, r: int)
    requires 0 <= r < k && x == q * k + r
    ensures x % k == r
  {
    var d := x / k - q;
    assert d * k == x / k * k - q * k;
    if d >= 1 { MulAtLeast(d, k); } else if d <= -1 { MulAtLeast(-d, k); }
  }

  lemma MulAtLeast(d: int, k: nat)
    requires d >= 1
    ensures d * k >= k && (-d) * k == -(d * k)
  {
    assert d * k == k + (d - 1) * k;
  }

  lemma ModSum(x: int, a: nat, k: nat)
    requires k > 0
    ensures (x + a % k) % k == (x + a) % k
    ensures (x - a % k) % k == (x - a) % k
  {
    ModShift(x + a % k, a / k, k);
    ModShift(x - a % k, a / k, k);
    assert a == a / k * k + a % k;
  }

  lemma CircleUp(v: nat, a: nat, k: nat)
    requires v < k <= INT_MAX
    ensures ToInt(Rem(v + Rem(a, k), k)) == (v + a) % k
  {
    ModSum(v, a, k);
    ToIntInRange((v + a) % k);
  }

  lemma CircleDown(v: nat, a: nat, k: nat)
    requires v < k <= INT_MAX
    ensures ToInt(Rem(v + k - Rem(a, k), k)) == (v - a) % k
  {
    ModSum(v, a, k);
    ModStep(v - a % k, k);
    ToIntInRange((v - a) % k);
  }

  lemma ReadsStep(a: nat)
    requires a <= LONG_MAX
    ensures "++" <= Up(a) && StrToL(Up(a)[2..]) == Parsed(a, [])
    ensures "--" <= Down(a) && !("++" <= Down(a)) && StrToL(Down(a)[2..]) == Parsed(a, [])
  {
    DecRoundTrip(a);
    assert Up(a)[2..] == Dec(a) && Down(a)[2..] == Dec(a);
    SignsDiffer(Down(a));
  }

  lemma TargetUp(names: seq<string>, v: nat, text: string, a: nat)
    requires names != [] && "++" <= text && StrToL(text[2..]) == Parsed(a, [])
    ensures EnumTarget(names, v, text) == ToInt(Rem(v + Rem(a, |names|), |names|))
  {}

  lemma TargetDown(names: seq<string>, v: nat, text: string, a: nat)
    requires names != [] && "--" <= text && !("++" <= text) && StrToL(text[2..]) == Parsed(a, [])
    ensures EnumTarget(names, v, text) == ToInt(Rem(v + |names| - Rem(a, |names|), |names|))
  {}

  /** A step moves the index around the circle of names. */
  lemma EnumStepUp(names: seq<string>, v: nat, a: nat, w: nat)
    requires v < |names| <= INT_MAX && a <= LONG_MAX && w == (v + a) % |names|
    ensures EnumTarget(names, v, Up(a)) == w
  {
    assert ToInt(Rem(v + Rem(a, |names|), |names|)) == w by { CircleUp(v, a, |names|); }
    ReadsStep(a);
    TargetUp(names, v, Up(a), a);
  }

  lemma EnumStepDown(names: seq<string>, v: nat, a: nat, w: nat)
    requires v < |names| <= INT_MAX && a <= LONG_MAX && w == (v - a) % |names|
    ensures EnumTarget(names, v, Down(a)) == w
  {
    assert ToInt(Rem(v + |names| - Rem(a, |names|), |names|)) == w by { CircleDown(v, a, |names|); }
    ReadsStep(a);
    TargetDown(names, v, Down(a), a);
  }

  function After(o: Spec, value: Option<Value>, text: string): Option<Value> {
    SetValue(o, value, Some(text)).value
  }

  lemma AfterUp(o: Spec, v: nat, a: nat, w: nat)
    requires o.kind.Enum? && WellFormed(o.kind) && v < |o.kind.names| && a <= LONG_MAX
    requires w == (v + a) % |o.kind.names|
    ensures After(o, Some(Num(v)), Up(a)) == Some(Num(w))
  {
    EnumStepUp(o.kind.names, v, a, w);
  }

  lemma AfterDown(o: Spec, v: nat, a: nat, w: nat)
    requires o.kind.Enum? && WellFormed(o.kind) && v < |o.kind.names| && a <= LONG_MAX
    requires w == (v - a) % |o.kind.names|
    ensures After(o, Some(Num(v)), Down(a)) == Some(Num(w))
  {
    EnumStepDown(o.kind.names, v, a, w);
  }

  lemma CircleLaws(v: nat, a: nat, b: nat, k: nat)
    requires v < k
    ensures ((v + a) % k + b) % k == (v + (a + b)) % k
    ensures ((v + a) % k - a) % k == v
  {
    var back: int := a;
    ModSum(b, v + a, k);
    ModSum(-back, v + a, k);
    DivUnique(v, k, 0, v);
  }

  lemma StepsAddUp(o: Spec, v: nat, a: nat, b: nat)
    requires o.kind.Enum? && WellFormed(o.kind) && v < |o.kind.names| && a + b <= LONG_MAX
    ensures After(o, After(o, Some(Num(v)), Up(a)), Up(b)) == After(o, Some(Num(v)), Up(a + b))
  {
    var k := |o.kind.names|;
    var p := (v + a) % k;
    var q := (p + b) % k;
    hide After, WellFormed;
    assert 0 <= p < k && q == (v + (a + b)) % k by { CircleLaws(v, a, b, k); }
    assert After(o, Some(Num(v)), Up(a)) == Some(Num(p)) by { AfterUp(o, v, a, p); }
    assert After(o, Some(Num(p)), Up(b)) == Some(Num(q)) by { AfterUp(o, p, b, q); }
    assert After(o, Some(Num(v)), Up(a + b)) == Some(Num(q)) by { AfterUp(o, v, a + b, q); }
  }

  lemma StepBack(o: Spec, v: nat, a: nat)
    requires o.kind.Enum? && WellFormed(o.kind) && v < |o.kind.names| && a <= LONG_MAX
    ensures After(o, After(o, Some(Num(v)), Up(a)), Down(a)) == Some(Num(v))
  {
    var k := |o.kind.names|;
    var p := (v + a) % k;
    assert v == (p - a) % k by { CircleLaws(v, a, 0, k); }
    assert After(o, Some(Num(v)), Up(a)) == Some(Num(p)) by { AfterUp(o, v, a, p); }
    assert After(o, Some(Num(p)), Down(a)) == Some(Num(v)) by { AfterDown(o, p, a, v); }
  }

  /** Stepping is an action of the integers modulo the number of names: steps add up, a step
      back undoes a step, and exactly the multiples of the number of names do nothing. */
  lemma EnumSteppingIsCyclic(o: Spec, v: nat, a: nat, b: nat)
    requires o.kind.Enum? && WellFormed(o.kind) && v < |o.kind.names| && a + b <= LONG_MAX
    ensures var now := Some(Num(v));
            && After(o, After(o, now, Up(a)), Up(b)) == After(o, now, Up(a + b))
            && After(o, After(o, now, Up(a)), Down(a)) == now
            && (After(o, now, Up(a)) == now <==> a % |o.kind.names| == 0)
  {
    var k := |o.kind.names|;
    var p := (v + a) % k;
    assert p == v <==> a % k == 0 by { SameResidue(v, a, k); }
    assert After(o, Some(Num(v)), Up(a)) == Some(Num(p)) by { AfterUp(o, v, a, p); }
    StepsAddUp(o, v, a, b);
    StepBack(o, v, a);
  }

  lemma SameResidue(v: nat, a: nat, k: nat)
    requires v < k
    ensures (v + a) % k == v <==> a % k == 0
  {
    ModSum(v, a, k);
    var r := a % k;
    if v + r < k { DivUnique(v + r, k, 0, v + r); } else { DivUnique(v + r, k, 1, v + r - k); }
  }

  // ------------------------------------------------------------------ plain numbers

  /** A plain number sets a ranged integer to itself, converted to `int` first: it is refused
      when the converted number is out of range, and kept as written just when it is an `int`. */
  lemma PlainNumber(o: Spec, value: Option<Value>, n: int)
    requires o.kind.Integer? && LONG_MIN <= n <= LONG_MAX
    ensures var r := SetValue(o, value, Some(Dec(n)));
            && (r.code != Error <==> o.kind.min <= ToInt(n) <= o.kind.max)
            && (r.code != Error ==> r.value == Some(Num(ToInt(n))))
    ensures ToInt(n) == n <==> INT_MIN <= n <= INT_MAX
  {
    DecRoundTrip(n);
    NotRelative(n);
    ToIntInRange(n);
  }

  /** No printed number looks like a relative step. */
  lemma NotRelative(n: int)
    ensures !("++" <= Dec(n)) && !("--" <= Dec(n))
  {
    var d, s := DecNat(if n < 0 then -n else n), Dec(n);
    DecNatReads(if n < 0 then -n else n);
    assert IsDigit(d[0]) && (n < 0 ==> s[1] == d[0]);
    assert "++"[0] == '+' && "--"[1] == '-';
  }
}
