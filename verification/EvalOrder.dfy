/**
 When the order of the comparison operators is transitive.  Two integer texts are compared as
 numbers, any other two texts as strings, so a text between them can break a chain.
 */
module EvalOrder {
  import opened CString
  import opened EvalCompare

  predicate Chains(a: string, b: string, c: string) {
    Order(a, b) <= 0 && Order(b, c) <= 0 ==>
      Order(a, c) <= 0 && (Order(a, b) < 0 || Order(b, c) < 0 ==> Order(a, c) < 0)
  }

  /** The order is transitive on three texts, in every arrangement. */
  predicate TransitiveOn(a: string, b: string, c: string) {
    Chains(a, b, c) && Chains(a, c, b) && Chains(b, a, c) && Chains(b, c, a) && Chains(c, a, b) && Chains(c, b, a)
  }

  /** Both orders put the two texts the same way round. */
  predicate Agree(x: string, y: string) {
    (Order(x, y) < 0 <==> StrCmp(x, y) < 0) && (Order(x, y) > 0 <==> StrCmp(x, y) > 0)
  }

  /** `z` lies strictly between the other two as a string. */
  predicate Between(x: string, z: string, y: string) {
    (StrCmp(x, z) < 0 && StrCmp(z, y) < 0) || (StrCmp(y, z) < 0 && StrCmp(z, x) < 0)
  }

  /** Two integer texts that the two orders put differently, and a third text between them that is
      no integer. */
  predicate Breaks(x: string, y: string, z: string) {
    IsInteger(x) && IsInteger(y) && !IsInteger(z) && !Agree(x, y) && Between(x, z, y)
  }

  lemma MixedIsString(a: string, b: string)
    requires !IsInteger(a) || !IsInteger(b)
    ensures Order(a, b) == StrCmp(a, b) && Order(b, a) == StrCmp(b, a) && StrCmp(b, a) == -StrCmp(a, b)
  {
    StrCmpSwap(a, b);
  }

  /** The laws of `strcmp` on three texts, in every arrangement. */
  lemma StringsChain(a: string, b: string, c: string)
    ensures StrCmp(a, b) <= 0 && StrCmp(b, c) <= 0 ==>
              StrCmp(a, c) <= 0 && (StrCmp(a, b) < 0 || StrCmp(b, c) < 0 ==> StrCmp(a, c) < 0)
  {
    if StrCmp(a, b) <= 0 && StrCmp(b, c) <= 0 { StrCmpTrans(a, b, c); }
  }

  /** With at most one integer text all comparisons are of strings. */
  lemma StringsTransitive(a: string, b: string, c: string)
    requires (!IsInteger(a) && !IsInteger(b)) || (!IsInteger(b) && !IsInteger(c)) || (!IsInteger(a) && !IsInteger(c))
    ensures TransitiveOn(a, b, c)
  {
    hide Order, StrCmp, IsInteger;
    MixedIsString(a, b); MixedIsString(b, c); MixedIsString(a, c);
    StringsChain(a, b, c); StringsChain(a, c, b); StringsChain(b, a, c);
    StringsChain(b, c, a); StringsChain(c, a, b); StringsChain(c, b, a);
  }

  lemma IntegersTransitive(a: string, b: string, c: string)
    requires IsInteger(a) && IsInteger(b) && IsInteger(c)
    ensures TransitiveOn(a, b, c)
  {
    hide Order, StrToL;
    OrderOfIntegers(a, b); OrderOfIntegers(b, c); OrderOfIntegers(a, c);
    OrderOfIntegers(b, a); OrderOfIntegers(c, b); OrderOfIntegers(c, a);
  }

  /** With two integer texts, transitivity is lost just when the third text breaks it. */
  lemma TwoIntegers(x: string, y: string, z: string)
    requires IsInteger(x) && IsInteger(y) && !IsInteger(z)
    ensures TransitiveOn(x, y, z) <==> !Breaks(x, y, z)
  {
    hide Order, StrCmp, IsInteger;
    MixedIsString(x, z); MixedIsString(y, z);
    OrderSwap(x, y);
    StrCmpSwap(x, y);
    StringsChain(x, y, z); StringsChain(x, z, y); StringsChain(y, x, z);
    StringsChain(y, z, x); StringsChain(z, x, y); StringsChain(z, y, x);
    Distinct(x, z); Distinct(y, z);
  }

  lemma Distinct(x: string, z: string)
    requires IsInteger(x) && !IsInteger(z)
    ensures StrCmp(x, z) != 0
  {
    StrCmpZero(x, z);
  }

  /** The order is transitive on three texts exactly when none of them breaks it. */
  lemma TransitiveExactly(a: string, b: string, c: string)
    ensures TransitiveOn(a, b, c) <==> !Breaks(a, b, c) && !Breaks(b, c, a) && !Breaks(a, c, b)
  {
    hide Order, StrCmp, IsInteger, Agree, Between;
    if IsInteger(a) && IsInteger(b) && IsInteger(c) {
      IntegersTransitive(a, b, c);
    } else if IsInteger(a) && IsInteger(b) {
      TwoIntegers(a, b, c);
    } else if IsInteger(b) && IsInteger(c) {
      TwoIntegers(b, c, a);
    } else if IsInteger(a) && IsInteger(c) {
      TwoIntegers(a, c, b);
    } else {
      StringsTransitive(a, b, c);
    }
  }

  // ------------------------------------------------ a text between two integer texts

  /** An integer text that is not empty ends in its digits, and has no others. */
  lemma IntegerShape(s: string) returns (k: nat)
    requires IsInteger(s) && s != ""
    ensures k < |s| && AllDigits(s[k..]) && forall i :: 0 <= i < k ==> !IsDigit(s[i])
  {
    var t := DropWhite(s);
    DropWhiteIs(s);
    var signed := t != [] && (t[0] == '-' || t[0] == '+');
    var u := if signed then t[1..] else t;
    var n := DigitRun(u);
    assert n > 0 && u[n..] == [];
    k := |s| - |u|;
    assert s[k..] == u && u[..n] == u;
  }

  lemma {:induction false} DropWhiteIs(s: string)
    ensures var t := DropWhite(s);
            |t| <= |s| && t == s[|s| - |t|..] && forall i :: 0 <= i < |s| - |t| ==> IsSpace(s[i])
  {
    if s != [] && IsSpace(s[0]) { DropWhiteIs(s[1..]); }
  }

  lemma EndsInDigit(s: string)
    requires IsInteger(s) && s != ""
    ensures IsDigit(s[|s| - 1])
  {
    var k := IntegerShape(s);
    assert s[|s| - 1] == s[k..][|s| - 1 - k];
  }

  /** After a digit an integer text goes on with a digit. */
  lemma DigitsGoOn(s: string, p: nat)
    requires IsInteger(s) && p + 1 < |s| && IsDigit(s[p])
    ensures IsDigit(s[p + 1])
  {
    var k := IntegerShape(s);
    assert s[p + 1] == s[k..][p + 1 - k];
  }

  lemma {:induction false} StrCmpExtended(a: string, b: string)
    requires b != ""
    ensures StrCmp(a, a + b) < 0
  {
    if a == "" {
      assert a + b == b;
    } else {
      assert (a + b)[1..] == a[1..] + b;
      StrCmpExtended(a[1..], b);
    }
  }

  /** A longer text comes before whatever the text came before, unless that goes on in the same
      way or with less. */
  lemma {:induction false} StrCmpStillBefore(a: string, c: char, b: string)
    requires StrCmp(a, b) < 0 && (a <= b ==> |b| > |a| && c < b[|a|])
    ensures StrCmp(a + [c], b) < 0
  {
    if a == "" {
      assert a + [c] == [c];
    } else {
      assert (a + [c])[1..] == a[1..] + [c];
      if a[0] == b[0] {
        assert a[1..] <= b[1..] ==> a <= b by {
          if a[1..] <= b[1..] { assert a == [a[0]] + a[1..] && b == [b[0]] + b[1..]; }
        }
        StrCmpStillBefore(a[1..], c, b[1..]);
      }
    }
  }

  /** Between two different integer texts there is always one that is no integer. */
  lemma TextBetween(x: string, y: string) returns (z: string)
    requires IsInteger(x) && IsInteger(y) && StrCmp(x, y) < 0
    ensures !IsInteger(z) && StrCmp(x, z) < 0 && StrCmp(z, y) < 0
  {
    if x == "" {
      z := BelowInteger(y);
    } else {
      EndsInDigit(x);
      z := x + ['!'];
      StrCmpExtended(x, ['!']);
      if x <= y {
        if |x| == |y| { assert x == y; StrCmpZero(x, y); }
        DigitsGoOn(y, |x| - 1);
      }
      StrCmpStillBefore(x, '!', y);
      if IsInteger(z) { EndsInDigit(z); }
    }
  }

  lemma BelowInteger(y: string) returns (z: string)
    requires IsInteger(y) && y != ""
    ensures !IsInteger(z) && StrCmp("", z) < 0 && StrCmp(z, y) < 0
  {
    EndsInDigit(y);
    if IsSpace(y[0]) {
      z := [y[0]];
      StrCmpExtended(z, y[1..]);
      assert y == z + y[1..];
    } else {
      z := "!";
      FirstOfInteger(y);
    }
    if IsInteger(z) { EndsInDigit(z); }
  }

  lemma FirstOfInteger(y: string)
    requires IsInteger(y) && y != ""
    ensures IsSpace(y[0]) || IsDigit(y[0]) || y[0] == '-' || y[0] == '+'
  {}

  /** Two integer texts go together with every other text exactly when comparing them as numbers
      and as strings gives the same answer. */
  lemma TransitiveWithAllIff(x: string, y: string)
    requires IsInteger(x) && IsInteger(y)
    ensures (forall z :: TransitiveOn(x, y, z)) <==> Agree(x, y)
  {
    hide TransitiveOn, IsInteger;
    if Agree(x, y) {
      forall z ensures TransitiveOn(x, y, z) {
        if IsInteger(z) { IntegersTransitive(x, y, z); } else { TwoIntegers(x, y, z); }
      }
    } else {
      StrCmpSwap(x, y);
      if StrCmp(x, y) == 0 {
        StrCmpZero(x, y);
        OrderSwap(x, x);
      } else {
        var z;
        if StrCmp(x, y) < 0 { z := TextBetween(x, y); } else { z := TextBetween(y, x); }
        TwoIntegers(x, y, z);
        assert !TransitiveOn(x, y, z);
      }
    }
  }
}
