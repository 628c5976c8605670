/**
 The line buffer of the reader: a line is taken apart by writing NULs into it, so that names
 and values are C strings inside the buffer.
 */
module ConfigBuffer {
  import opened CString
  import opened ConfigText

  /** The C string at `p` is `s`. */
  ghost predicate IsStr(b: seq<char>, p: nat, s: string) {
    && p + |s| < |b| && b[p..p + |s|] == s && b[p + |s|] == '\0' && '\0' !in s
  }

  lemma StrPart(b: seq<char>, p: nat, s: string, i: nat)
    requires IsStr(b, p, s) && i <= |s|
    ensures IsStr(b, p + i, s[i..])
  {
    assert b[p + i..p + |s|] == b[p..p + |s|][i..];
  }

  lemma StrChar(b: seq<char>, p: nat, s: string, i: nat)
    requires IsStr(b, p, s) && i <= |s|
    ensures b[p + i] == if i < |s| then s[i] else '\0'
    ensures i < |s| ==> s[i] != '\0'
  {
    assert i < |s| ==> b[p..p + |s|][i] == s[i];
  }

  /** Writing a NUL cuts the string. */
  lemma StrCut(b: seq<char>, p: nat, s: string, i: nat)
    requires IsStr(b, p, s) && i <= |s|
    ensures IsStr(b[p + i := '\0'], p, s[..i])
  {
    assert b[p + i := '\0'][p..p + i] == b[p..p + |s|][..i];
  }

  /** Writing before a string leaves it alone. */
  lemma StrAfter(b: seq<char>, p: nat, s: string, q: nat)
    requires IsStr(b, p, s) && q < p
    ensures IsStr(b[q := '\0'], p, s)
  {
    assert b[q := '\0'][p..p + |s|] == b[p..p + |s|];
  }

  lemma {:induction false} BeforeAt(s: string, c: char, k: nat)
    requires k <= |s| && c !in s[..k] && (k < |s| ==> s[k] == c)
    ensures Before(s, c) == s[..k]
  {
    if k > 0 {
      assert s[0] == s[..k][0] && s[1..][..k - 1] == s[..k][1..];
      BeforeAt(s[1..], c, k - 1);
    }
  }

  lemma {:induction false} FindEqualsAt(s: string, k: nat)
    requires k <= |s| && forall i :: 0 <= i < k && i + 1 < |s| ==> !(s[i] == ' ' && s[i + 1] == '=')
    requires if k + 1 < |s| then s[k] == ' ' && s[k + 1] == '=' else true
    ensures FindEquals(s) == if k + 1 < |s| then Some(k) else None
  {
    if k > 0 && |s| >= 2 { FindEqualsAt(s[1..], k - 1); }
  }

  lemma {:induction false} SkipSpacesAt(s: string, k: nat)
    requires k <= |s| && (forall i :: 0 <= i < k ==> s[i] == ' ') && (k < |s| ==> s[k] != ' ')
    ensures SkipSpaces(s) == s[k..]
  {
    if k > 0 { SkipSpacesAt(s[1..], k - 1); }
  }

  /** `strlen` */
  method StrLen(line: array<char>, p: nat, ghost s: string) returns (n: nat)
    requires IsStr(line[..], p, s)
    ensures n == |s|
  {
    n := 0;
    StrChar(line[..], p, s, 0);
    while line[p + n] != '\0'
      invariant n <= |s| && line[p + n] == if n < |s| then s[n] else '\0'
      decreases |s| - n
    {
      n := n + 1;
      StrChar(line[..], p, s, n);
    }
    StrChar(line[..], p, s, n);
  }

  /** `strchr` */
  method StrChr(line: array<char>, p: nat, c: char, ghost s: string) returns (pos: int)
    requires IsStr(line[..], p, s) && c != '\0'
    ensures if c in s then pos == p + |Before(s, c)| && |Before(s, c)| < |s| else pos == -1
    ensures Before(s, c) == if c in s then s[..|Before(s, c)|] else s
  {
    var n := 0;
    StrChar(line[..], p, s, 0);
    while line[p + n] != '\0'
      invariant 0 <= n <= |s| && line[p + n] == if n < |s| then s[n] else '\0'
      invariant c !in s[..n]
      decreases |s| - n
    {
      StrChar(line[..], p, s, n);
      if line[p + n] == c {
        BeforeAt(s, c, n);
        return p + n;
      }
      n := n + 1;
      StrChar(line[..], p, s, n);
    }
    StrChar(line[..], p, s, n);
    assert s[..n] == s;
    BeforeAt(s, c, n);
    pos := -1;
  }

  /** `strstr (line, " =")` */
  method StrStrEquals(line: array<char>, p: nat, ghost s: string) returns (pos: int)
    requires IsStr(line[..], p, s)
    ensures pos == match FindEquals(s) case None => -1 case Some(k) => p + k
  {
    var n := 0;
    StrChar(line[..], p, s, 0);
    while line[p + n] != '\0'
      invariant 0 <= n <= |s| && line[p + n] == if n < |s| then s[n] else '\0'
      invariant forall i :: 0 <= i < n && i + 1 < |s| ==> !(s[i] == ' ' && s[i + 1] == '=')
      decreases |s| - n
    {
      StrChar(line[..], p, s, n);
      StrChar(line[..], p, s, n + 1);
      if line[p + n] == ' ' && line[p + n + 1] == '=' {
        FindEqualsAt(s, n);
        return p + n;
      }
      n := n + 1;
    }
    StrChar(line[..], p, s, n);
    FindEqualsAt(s, n);
    pos := -1;
  }

  method Skip(line: array<char>, p: nat, ghost s: string) returns (q: nat)
    requires IsStr(line[..], p, s)
    ensures q == p + (|s| - |SkipSpaces(s)|) && IsStr(line[..], q, SkipSpaces(s))
  {
    q := p;
    StrChar(line[..], p, s, 0);
    while line[q] == ' '
      invariant p <= q <= p + |s| && line[q] == if q - p < |s| then s[q - p] else '\0'
      invariant forall i :: 0 <= i < q - p ==> s[i] == ' '
      decreases p + |s| - q
    {
      q := q + 1;
      StrChar(line[..], p, s, q - p);
    }
    SkipSpacesAt(s, q - p);
    StrPart(line[..], p, s, q - p);
  }

  /** Spaces at the end are overwritten, but not the first character. */
  method Trim(line: array<char>, p: nat, last: int, ghost s: string)
    requires IsStr(line[..], p, s) && last == p + |s| - 1
    modifies line
    ensures IsStr(line[..], p, CutSpaces(s))
    ensures line[..p] == old(line[..p]) && line[p + |s|..] == old(line[p + |s|..])
  {
    var pos := last;
    ghost var t := s;
    while pos > p && line[pos] == ' '
      invariant p - 1 <= pos == p + |t| - 1 && |t| <= |s|
      invariant IsStr(line[..], p, t) && CutSpaces(t) == CutSpaces(s)
      invariant line[..p] == old(line[..p]) && line[p + |s|..] == old(line[p + |s|..])
      decreases pos
    {
      StrChar(line[..], p, t, |t| - 1);
      StrCut(line[..], p, t, |t| - 1);
      ghost var b := line[..];
      line[pos] := '\0';
      assert line[..] == b[pos := '\0'];
      t := t[..|t| - 1];
      pos := pos - 1;
    }
    if pos > p { StrChar(line[..], p, t, |t| - 1); }
  }

  /** Quotes around a value: the last one is overwritten, the first one skipped. */
  method CutQuotes(line: array<char>, p: nat, ghost s: string) returns (q: nat)
    requires IsStr(line[..], p, s) && s != ""
    modifies line
    ensures IsStr(line[..], q, Unquote(s)) && line[..p] == old(line[..p])
  {
    var n := StrLen(line, p, s);
    var last := p + n - 1;
    StrChar(line[..], p, s, 0);
    StrChar(line[..], p, s, n - 1);
    q := p;
    if (line[p] == '\'' && line[last] == '\'') || (line[p] == '"' && line[last] == '"') {
      ghost var b := line[..];
      if n > 1 {
        StrCut(b, p, s, n - 1);
        StrPart(b[last := '\0'], p, s[..n - 1], 1);
      } else {
        StrPart(b, p, s, 1);
        StrAfter(b, p + 1, s[1..], p);
      }
      line[last] := '\0';
      q := q + 1;
      assert line[..] == b[last := '\0'];
    }
  }

  /** The string at a position, for those who are given a pointer to it. */
  method TakeStr(line: array<char>, p: nat, ghost s: string) returns (r: string)
    requires IsStr(line[..], p, s)
    ensures r == s
  {
    var n := StrLen(line, p, s);
    r := line[p..p + n];
  }

  /** What stands after the equals sign. */
  method CutValue(line: array<char>, start: nat, ghost s: string) returns (value: Option<string>)
    requires IsStr(line[..], start, s)
    modifies line
    ensures value == ReadValue(s) && line[..start] == old(line[..start])
  {
    ghost var was := line[..start];
    var p := Skip(line, start, s);
    ghost var t := SkipSpaces(s);
    StrChar(line[..], p, t, 0);
    var text := TakeStr(line, p, t);
    value := None;
    if line[p] != '\0' && StrCaseCmp(text, OPTION_NULL) != 0 {
      var n := StrLen(line, p, t);
      if n > 1 {
        Trim(line, p, p + n - 1, t);
        p := CutQuotes(line, p, CutSpaces(t));
        t := Unquote(CutSpaces(t));
        assert line[..start] == was;
      }
      text := TakeStr(line, p, t);
      value := Some(text);
    }
  }

  /** The name, after its escape character. */
  method TakeName(line: array<char>, ghost s: string) returns (name: string)
    requires IsStr(line[..], 0, s)
    ensures name == Unescape(s)
  {
    StrChar(line[..], 0, s, 0);
    if line[0] == '\\' {
      StrPart(line[..], 0, s, 1);
      name := TakeStr(line, 1, s[1..]);
    } else {
      name := TakeStr(line, 0, s);
    }
  }

  /** The line ends before the first `c`. */
  method CutAt(line: array<char>, c: char, ghost s: string)
    requires IsStr(line[..], 0, s) && c != '\0'
    modifies line
    ensures IsStr(line[..], 0, Before(s, c))
  {
    var pos := StrChr(line, 0, c, s);
    if pos != -1 {
      StrCut(line[..], 0, s, pos);
      ghost var b := line[..];
      line[pos] := '\0';
      assert line[..] == b[pos := '\0'];
    }
  }

  /** A line that sets an option. */
  method CutSetting(line: array<char>, ghost s: string) returns (what: Line)
    requires IsStr(line[..], 0, s)
    modifies line
    ensures what == ReadSetting(s)
  {
    CutAt(line, '\r', s);
    CutAt(line, '\n', Before(s, '\r'));
    ghost var l := Before(Before(s, '\r'), '\n');
    var pos := StrStrEquals(line, 0, l);
    if pos == -1 {
      var name := TakeName(line, l);
      what := Setting(name, None);
    } else {
      StrCut(line[..], 0, l, pos);
      StrPart(line[..], 0, l, pos + 2);
      StrAfter(line[..], pos + 2, l[pos + 2..], pos);
      ghost var b := line[..];
      line[pos] := '\0';
      assert line[..] == b[pos := '\0'];
      b := line[..];
      Trim(line, 0, pos - 1, l[..pos]);
      assert IsStr(line[..], pos + 2, l[pos + 2..]) by { SameTail(b, line[..], pos, pos + 2, l[pos + 2..]); }
      b := line[..];
      var value := CutValue(line, pos + 2, l[pos + 2..]);
      SameHead(b, line[..], pos + 2, CutSpaces(l[..pos]));
      var name := TakeName(line, CutSpaces(l[..pos]));
      what := Setting(name, value);
    }
  }

  lemma SameTail(a: seq<char>, b: seq<char>, n: nat, p: nat, s: string)
    requires IsStr(a, p, s) && n <= p && |a| == |b| && n <= |a| && b[n..] == a[n..]
    ensures IsStr(b, p, s)
  {
    forall i | n <= i < |a| ensures a[i] == b[i] { assert a[n..][i - n] == b[n..][i - n]; }
    assert b[p..p + |s|] == a[p..p + |s|];
  }

  lemma SameHead(a: seq<char>, b: seq<char>, n: nat, s: string)
    requires IsStr(a, 0, s) && |s| < n <= |a| == |b| && a[..n] == b[..n]
    ensures IsStr(b, 0, s)
  {
    forall i | 0 <= i < n ensures a[i] == b[i] { assert a[..n][i] == b[..n][i]; }
    assert b[0..|s|] == a[0..|s|];
  }

  /** The body of the reader's loop up to the search of the section or the option. */
  method CutLine(line: array<char>, ghost s: string) returns (what: Line)
    requires IsStr(line[..], 0, s)
    modifies line
    ensures what == ParseLine(s)
  {
    var ptr := Skip(line, 0, s);
    ghost var p := SkipSpaces(s);
    StrChar(line[..], ptr, p, 0);
    if line[ptr] == '#' || line[ptr] == '\r' || line[ptr] == '\n' { return Ignored; }
    var equals := -1;
    if line[ptr] == '[' { equals := StrChr(line, ptr, '=', p); }
    if line[ptr] == '[' && equals == -1 {
      what := CutHeader(line, ptr, s);
    } else {
      what := CutSetting(line, s);
    }
  }

  /** The line of a section: the bracket is looked for from the start of the line. */
  method CutHeader(line: array<char>, ptr: nat, ghost s: string) returns (what: Line)
    requires IsStr(line[..], 0, s) && ptr == |s| - |SkipSpaces(s)|
    requires SkipSpaces(s) != "" && SkipSpaces(s)[0] == '['
    modifies line
    ensures what == if ']' in SkipSpaces(s) then Header(Some(Before(SkipSpaces(s)[1..], ']'))) else Header(None)
  {
    ghost var p := SkipSpaces(s);
    BracketAfterSpaces(s);
    var pos := StrChr(line, 0, ']', s);
    if pos == -1 { return Header(None); }
    StrCut(line[..], 0, s, pos);
    StrPart(line[..][pos := '\0'], 0, s[..pos], ptr + 1);
    ghost var b := line[..];
    line[pos] := '\0';
    assert line[..] == b[pos := '\0'];
    var name := TakeStr(line, ptr + 1, s[..pos][ptr + 1..]);
    what := Header(Some(name));
  }

  lemma {:induction false} BracketAfterSpaces(s: string)
    requires SkipSpaces(s) != "" && SkipSpaces(s)[0] == '['
    ensures var p := SkipSpaces(s);
            && (']' in s <==> ']' in p)
            && (']' in s ==> |Before(s, ']')| > |s| - |p| && Before(s, ']')[|s| - |p| + 1..] == Before(p[1..], ']'))
  {
    if s[0] == ' ' { BracketAfterSpaces(s[1..]); }
  }
}
