/**
 The C string primitives the program leans on: case-blind and exact comparison,
 base-10 `strtol` with saturation, and `%d`.  A C string is a `string`; its
 terminating NUL is the end of the sequence.
 */
module CString {

  datatype Option<+T> = None | Some(value: T)

  const INT_MIN := -0x8000_0000
  const INT_MAX := 0x7FFF_FFFF
  const LONG_MIN := -0x8000_0000_0000_0000
  const LONG_MAX := 0x7FFF_FFFF_FFFF_FFFF

  /** What `while (ptr[0] == ' ') ptr++` leaves. */
  function SkipSpaces(s: string): (r: string)
    ensures |r| <= |s|
  {
    if s != "" && s[0] == ' ' then SkipSpaces(s[1..]) else s
  }

  function Spaces(n: nat): string { seq(n, _ => ' ') }

  lemma {:induction false} SkipSpacesPast(n: nat, s: string)
    requires s == "" || s[0] != ' '
    ensures SkipSpaces(Spaces(n) + s) == s
  {
    if n == 0 {
      assert Spaces(n) + s == s;
    } else {
      SkipSpacesPast(n - 1, s);
      assert (Spaces(n) + s)[1..] == Spaces(n - 1) + s;
    }
  }

  lemma {:induction false} SkipSpacesFirst(s: string)
    ensures SkipSpaces(s) != "" ==> SkipSpaces(s)[0] != ' '
  {
    if s != "" && s[0] == ' ' { SkipSpacesFirst(s[1..]); }
  }

  // ---------------------------------------------------------------- comparison

  /** `strcmp`, reduced to its sign. */
  function StrCmp(a: string, b: string): int {
    if a == [] || b == [] then
      if a != [] then 1 else if b != [] then -1 else 0
    else if a[0] < b[0] then -1
    else if a[0] > b[0] then 1
    else StrCmp(a[1..], b[1..])
  }

  /** Only the letters A-Z are folded. */
  function FoldChar(c: char): char {
    if 'A' <= c <= 'Z' then (c as int + 32) as char else c
  }

  function Fold(s: string): string {
    seq(|s|, i requires 0 <= i < |s| => FoldChar(s[i]))
  }

  /** `string_strcasecmp`. */
  function StrCaseCmp(a: string, b: string): int {
    if a == [] || b == [] then
      if a != [] then 1 else if b != [] then -1 else 0
    else if FoldChar(a[0]) < FoldChar(b[0]) then -1
    else if FoldChar(a[0]) > FoldChar(b[0]) then 1
    else StrCaseCmp(a[1..], b[1..])
  }

  lemma {:induction false} StrCmpZero(a: string, b: string)
    ensures StrCmp(a, b) == 0 <==> a == b
  {
    if a != [] && b != [] {
      StrCmpZero(a[1..], b[1..]);
      assert a == [a[0]] + a[1..] && b == [b[0]] + b[1..];
    }
  }

  lemma {:induction false} StrCmpSwap(a: string, b: string)
    ensures StrCmp(a, b) == -StrCmp(b, a)
  {
    if a != [] && b != [] { StrCmpSwap(a[1..], b[1..]); }
  }

  lemma {:induction false} StrCmpTrans(a: string, b: string, c: string)
    requires StrCmp(a, b) <= 0 && StrCmp(b, c) <= 0
    ensures StrCmp(a, c) <= 0
    ensures StrCmp(a, b) < 0 || StrCmp(b, c) < 0 ==> StrCmp(a, c) < 0
  {
    if a != [] && b != [] && c != [] && a[0] == b[0] && b[0] == c[0] {
      StrCmpTrans(a[1..], b[1..], c[1..]);
    }
  }

  /** `k` is where two texts first differ, or where one of them ends. */
  predicate FirstDifference(a: string, b: string, k: nat) {
    k <= |a| && k <= |b| && a[..k] == b[..k] && (k < |a| && k < |b| ==> a[k] != b[k])
  }

  /** `strcmp` is the order of the dictionary: the first difference decides, and a text comes after
      its own beginnings. */
  lemma {:induction false} StrCmpIsLexicographic(a: string, b: string) returns (k: nat)
    ensures FirstDifference(a, b, k)
    ensures StrCmp(a, b) == if k == |a| then (if k == |b| then 0 else -1)
                            else if k == |b| then 1
                            else if a[k] < b[k] then -1 else 1
  {
    if a == "" || b == "" || a[0] != b[0] {
      k := 0;
    } else {
      k := StrCmpIsLexicographic(a[1..], b[1..]);
      assert a[..k + 1] == [a[0]] + a[1..][..k] && b[..k + 1] == [b[0]] + b[1..][..k];
      k := k + 1;
    }
  }

  /** `c` is one of the letters A-Z and `d` the same letter of a-z. */
  predicate UpperOf(c: char, d: char) { 'A' <= c <= 'Z' && d as int == c as int + 'a' as int - 'A' as int }

  predicate SameLetter(c: char, d: char) { c == d || UpperOf(c, d) || UpperOf(d, c) }

  /** Two texts are equal without case exactly when they are equal but for the case of A-Z. */
  lemma {:induction false} EqualWithoutCase(a: string, b: string)
    ensures StrCaseCmp(a, b) == 0 <==> |a| == |b| && forall i :: 0 <= i < |a| ==> SameLetter(a[i], b[i])
  {
    if a != "" && b != "" {
      EqualWithoutCase(a[1..], b[1..]);
      assert FoldChar(a[0]) == FoldChar(b[0]) <==> SameLetter(a[0], b[0]);
      if |a| == |b| && SameLetter(a[0], b[0]) && forall i :: 0 <= i < |a[1..]| ==> SameLetter(a[1..][i], b[1..][i]) {
        forall i | 0 <= i < |a| ensures SameLetter(a[i], b[i]) {
          if i > 0 { assert SameLetter(a[1..][i - 1], b[1..][i - 1]); }
        }
      }
    }
  }

  /** Comparing without case is comparing the folded texts. */
  lemma {:induction false} StrCaseCmpFolds(a: string, b: string)
    ensures StrCaseCmp(a, b) == StrCmp(Fold(a), Fold(b))
  {
    if a != [] && b != [] {
      StrCaseCmpFolds(a[1..], b[1..]);
      assert Fold(a)[1..] == Fold(a[1..]) && Fold(b)[1..] == Fold(b[1..]);
    }
  }

  /** `string_strcasecmp` is a total preorder whose classes are equality up to case. */
  lemma StrCaseCmpPreorder(a: string, b: string, c: string)
    ensures StrCaseCmp(a, b) == 0 <==> Fold(a) == Fold(b)
    ensures StrCaseCmp(a, b) == -StrCaseCmp(b, a)
    ensures StrCaseCmp(a, b) <= 0 && StrCaseCmp(b, c) <= 0 ==> StrCaseCmp(a, c) <= 0
    ensures StrCaseCmp(a, b) <= 0 && StrCaseCmp(b, c) <= 0 && (StrCaseCmp(a, b) < 0 || StrCaseCmp(b, c) < 0)
            ==> StrCaseCmp(a, c) < 0
  {
    StrCaseCmpFolds(a, b); StrCaseCmpFolds(b, a); StrCaseCmpFolds(b, c); StrCaseCmpFolds(a, c);
    StrCmpZero(Fold(a), Fold(b));
    StrCmpSwap(Fold(a), Fold(b));
    if StrCaseCmp(a, b) <= 0 && StrCaseCmp(b, c) <= 0 { StrCmpTrans(Fold(a), Fold(b), Fold(c)); }
  }

  // ------------------------------------------------------------------- searching

  /** The first name equal to the text without case, or -1: how options, sections, files and
      values are found. */
  function IndexOf(names: seq<string>, text: string): (i: int)
    ensures -1 <= i < |names|
  {
    if names == [] then -1
    else if StrCaseCmp(names[0], text) == 0 then 0
    else var i := IndexOf(names[1..], text); if i < 0 then -1 else i + 1
  }

  /** The search is exact: a hit is the first name equal without case, a miss says there is none. */
  lemma {:induction false} IndexOfIsFirst(names: seq<string>, text: string)
    ensures var i := IndexOf(names, text);
            && (i >= 0 ==> StrCaseCmp(names[i], text) == 0)
            && forall k :: 0 <= k < (if i >= 0 then i else |names|) ==> StrCaseCmp(names[k], text) != 0
  {
    if names != [] && StrCaseCmp(names[0], text) != 0 { IndexOfIsFirst(names[1..], text); }
  }

  /** A loop that stops at the first equal name has found it. */
  lemma IndexOfUnique(names: seq<string>, text: string, k: nat)
    requires k <= |names| && forall i :: 0 <= i < k ==> StrCaseCmp(names[i], text) != 0
    requires k < |names| ==> StrCaseCmp(names[k], text) == 0
    ensures IndexOf(names, text) == if k < |names| then k else -1
  {
    IndexOfIsFirst(names, text);
  }

  // ------------------------------------------------------------------- strtol

  predicate IsSpace(c: char) { c == ' ' || 9 <= c as int <= 13 }

  predicate IsDigit(c: char) { '0' <= c <= '9' }

  predicate AllDigits(s: string) { forall i :: 0 <= i < |s| ==> IsDigit(s[i]) }

  function DropWhite(s: string): string {
    if s != [] && IsSpace(s[0]) then DropWhite(s[1..]) else s
  }

  function DigitRun(s: string): (n: nat)
    ensures n <= |s| && AllDigits(s[..n])
    ensures n < |s| ==> !IsDigit(s[n])
  {
    if s != [] && IsDigit(s[0]) then 1 + DigitRun(s[1..]) else 0
  }

  function NatOf(s: string): nat
    requires AllDigits(s)
  {
    if s == [] then 0 else 10 * NatOf(s[..|s| - 1]) + (s[|s| - 1] as int - '0' as int)
  }

  function Saturate(n: int): int {
    if n < LONG_MIN then LONG_MIN else if n > LONG_MAX then LONG_MAX else n
  }

  /** What `strtol (s, &end, 10)` returns, and the text `end` points at. */
  datatype Parsed = Parsed(value: int, rest: string)

  /** Section 7.22.1.4 of ISO/IEC 9899:2011: white space, an optional sign, digits;
      without a digit nothing is converted and `end` is the start of the text. */
  function StrToL(s: string): Parsed {
    var t := DropWhite(s);
    var signed := t != [] && (t[0] == '-' || t[0] == '+');
    var u := if signed then t[1..] else t;
    var n := DigitRun(u);
    var magnitude: int := NatOf(u[..n]);
    if n == 0 then Parsed(0, s)
    else Parsed(Saturate(if signed && t[0] == '-' then -magnitude else magnitude), u[n..])
  }

  lemma {:induction false} DropWhitePast(w: string, s: string)
    requires forall i :: 0 <= i < |w| ==> IsSpace(w[i])
    requires s != "" ==> !IsSpace(s[0])
    ensures DropWhite(w + s) == s
  {
    if w == "" {
      assert w + s == s;
    } else {
      assert (w + s)[0] == w[0] && (w + s)[1..] == w[1..] + s;
      DropWhitePast(w[1..], s);
    }
  }

  lemma {:induction false} DigitRunPast(d: string, rest: string)
    requires AllDigits(d) && (rest != "" ==> !IsDigit(rest[0]))
    ensures DigitRun(d + rest) == |d|
  {
    if d == "" {
      assert d + rest == rest;
    } else {
      assert (d + rest)[0] == d[0] && (d + rest)[1..] == d[1..] + rest;
      DigitRunPast(d[1..], rest);
    }
  }

  /** Space, tab, line feed, vertical tab, form feed and carriage return. */
  const WHITE := " \t\n\U{0B}\U{0C}\r"

  /** A number in a text is white space, a sign or none, and digits up to the first character that is
      none; it counts as the nearest `long`. */
  lemma StrToLReads(white: string, sign: string, digits: string, rest: string)
    requires forall i :: 0 <= i < |white| ==> white[i] in WHITE
    requires sign == "" || sign == "+" || sign == "-"
    requires digits != "" && AllDigits(digits) && (rest != "" ==> !IsDigit(rest[0]))
    ensures var m: int := NatOf(digits); var n := if sign == "-" then -m else m;
            StrToL(white + (sign + (digits + rest)))
            == Parsed(if n > 0x7FFF_FFFF_FFFF_FFFF then 0x7FFF_FFFF_FFFF_FFFF
                      else if n < -0x8000_0000_0000_0000 then -0x8000_0000_0000_0000
                      else n, rest)
  {
    var u := digits + rest;
    var t := sign + u;
    assert t[0] == if sign == "" then digits[0] else sign[0];
    DropWhitePast(white, t);
    DigitRunPast(digits, rest);
    assert sign == "" ==> t == u;
    assert sign != "" ==> t[1..] == u;
    assert u[..|digits|] == digits && u[|digits|..] == rest;
  }

  /** Without digits behind white space and a sign nothing is read. */
  lemma StrToLReadsNothing(white: string, sign: string, rest: string)
    requires forall i :: 0 <= i < |white| ==> white[i] in WHITE
    requires sign == "" || sign == "+" || sign == "-"
    requires rest != "" ==> !IsDigit(rest[0]) && (sign == "" ==> !IsSpace(rest[0]) && rest[0] != '+' && rest[0] != '-')
    ensures StrToL(white + (sign + rest)) == Parsed(0, white + (sign + rest))
  {
    var t := sign + rest;
    DropWhitePast(white, t);
    DigitRunPast("", rest);
    assert "" + rest == rest;
    assert sign == "" ==> t == rest;
    assert sign != "" ==> t[1..] == rest;
  }

  /** The test `error && !error[0]` that guards every use of the parsed number.
      The empty text passes it, and its number is 0. */
  predicate IsInteger(s: string) { StrToL(s).rest == [] }

  // ----------------------------------------------------------------------- %d

  function DecNat(n: nat): string {
    if n < 10 then [('0' as int + n) as char] else DecNat(n / 10) + [('0' as int + n % 10) as char]
  }

  /** `%d` */
  function Dec(n: int): string {
    if n < 0 then "-" + DecNat(-n) else DecNat(n)
  }

  lemma {:induction false} DecNatReads(n: nat)
    ensures DecNat(n) != [] && AllDigits(DecNat(n)) && NatOf(DecNat(n)) == n
  {
    if n >= 10 {
      DecNatReads(n / 10);
      var s := DecNat(n);
      assert s[..|s| - 1] == DecNat(n / 10);
    }
  }

  /** Printing with `%d` and reading back with `strtol` is the identity on `long`. */
  lemma DecRoundTrip(n: int)
    requires LONG_MIN <= n <= LONG_MAX
    ensures Dec(n) != [] && StrToL(Dec(n)) == Parsed(n, [])
    ensures n >= 0 ==> AllDigits(Dec(n))
  {
    var m := if n < 0 then -n else n;
    DecNatReads(m);
    var d := DecNat(m);
    var sign := if n < 0 then "-" else "";
    hide StrToL, DecNat;
    assert d + [] == d && "" + (sign + d) == sign + d;
    assert Dec(n) == sign + d;
    StrToLReads("", sign, d, []);
  }
}
