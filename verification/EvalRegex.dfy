/**
 Replacement with a regular expression.  The program edits one string in place and shifts
 offsets; its meaning is a recursion on the part not yet scanned.
 */
module EvalRegex {
  import opened CString

  /** The offsets of a group, `so` being negative for a group that took no part. */
  datatype Group = Group(so: int, eo: int)

  const NMATCH := 100

  /** `regexec` on a text: `None` when it does not match. */
  type Matcher = string -> Option<seq<Group>>

  predicate GroupsWithin(gs: seq<Group>, n: nat) {
    |gs| == NMATCH && forall i :: 0 <= i < NMATCH && gs[i].so >= 0 ==> gs[i].so <= gs[i].eo <= n
  }

  ghost predicate IsMatcher(m: Matcher) {
    forall s :: m(s).Some? ==> GroupsWithin(m(s).value, |s|)
  }

  /** The highest group that took part, 0 when none did. */
  function LastMatch(gs: seq<Group>): (n: nat)
    ensures n == 0 || (n < |gs| && gs[n].so >= 0)
    ensures forall k :: n < k < |gs| ==> gs[k].so < 0
  {
    if gs == [] then 0
    else if gs[|gs| - 1].so >= 0 then |gs| - 1
    else LastMatch(gs[..|gs| - 1])
  }

  function GroupText(s: string, g: Group): string {
    if 0 <= g.so <= g.eo <= |s| then s[g.so..g.eo] else ""
  }

  /** What ${re:0} to ${re:+} stand for in the replacement. */
  function Captures(s: string, gs: seq<Group>): seq<string> {
    seq(LastMatch(gs) + 1, i requires 0 <= i <= LastMatch(gs) =>
      if i < |gs| then GroupText(s, gs[i]) else "")
  }

  predicate Stops(r: Option<seq<Group>>) {
    r.None? || r.value == [] || r.value[0].so < 0 || r.value[0].eo <= 0
  }

  /** The meaning of the replacement: up to the first match the text is kept, the match is
      replaced, and the rest is treated alone.  An empty match at the very beginning stops. */
  function Replaced(m: Matcher, rep: seq<string> -> string, s: string): string {
    if s == "" || Stops(m(s)) then s
    else
      var gs := m(s).value;
      if gs[0].so <= gs[0].eo <= |s| then
        s[..gs[0].so] + (rep(Captures(s, gs)) + Replaced(m, rep, s[gs[0].eo..]))
      else s
  }

  function Shifted(gs: seq<Group>, offset: nat): seq<Group> {
    seq(|gs|, i requires 0 <= i < |gs| =>
      if gs[i].so >= 0 then Group(gs[i].so + offset, gs[i].eo + offset) else gs[i])
  }

  lemma {:induction false} LastMatchShifted(gs: seq<Group>, offset: nat)
    ensures LastMatch(Shifted(gs, offset)) == LastMatch(gs)
  {
    if gs != [] {
      LastMatchShifted(gs[..|gs| - 1], offset);
      assert Shifted(gs, offset)[..|gs| - 1] == Shifted(gs[..|gs| - 1], offset);
    }
  }

  /** Groups read in the whole string through shifted offsets are the groups of the suffix. */
  lemma CapturesShift(s: string, offset: nat, gs: seq<Group>)
    requires offset <= |s| && GroupsWithin(gs, |s| - offset)
    ensures Captures(s, Shifted(gs, offset)) == Captures(s[offset..], gs)
  {
    hide LastMatch, GroupText;
    LastMatchShifted(gs, offset);
    var t := Shifted(gs, offset);
    forall i | 0 <= i < NMATCH ensures GroupText(s, t[i]) == GroupText(s[offset..], gs[i]) {
      GroupTextShifts(s, offset, gs[i]);
    }
    assert Captures(s, t) == Captures(s[offset..], gs);
  }

  lemma GroupTextShifts(s: string, offset: nat, g: Group)
    requires offset <= |s| && (g.so >= 0 ==> g.so <= g.eo <= |s| - offset)
    ensures GroupText(s, if g.so >= 0 then Group(g.so + offset, g.eo + offset) else g) == GroupText(s[offset..], g)
  {
    if g.so >= 0 { assert s[g.so + offset..g.eo + offset] == s[offset..][g.so..g.eo]; }
  }

  /** The loop that shifts the offsets and finds the last group. */
  method AdjustOffsets(gs: seq<Group>, offset: nat) returns (adjusted: seq<Group>, lastMatch: nat)
    requires |gs| == NMATCH
    ensures adjusted == Shifted(gs, offset) && lastMatch == LastMatch(gs)
  {
    adjusted, lastMatch := gs, 0;
    for i := 0 to NMATCH
      invariant |adjusted| == NMATCH
      invariant forall k :: 0 <= k < NMATCH ==> adjusted[k] == if k < i then Shifted(gs, offset)[k] else gs[k]
      invariant lastMatch == LastMatch(gs[..i])
    {
      assert gs[..i + 1][..i] == gs[..i];
      if gs[i].so >= 0 {
        lastMatch := i;
        adjusted := adjusted[i := Group(gs[i].so + offset, gs[i].eo + offset)];
      }
    }
    assert gs[..NMATCH] == gs;
  }

  /** One pass of the loop: the match found from `start` on is replaced in the string. */
  method ReplaceOne(result: string, start: nat, m: Matcher, rep: seq<string> -> string, match0: seq<Group>)
    returns (result2: string, next: nat, end: bool)
    requires start < |result| && m(result[start..]) == Some(match0) && GroupsWithin(match0, |result| - start)
    requires match0[0].so >= 0 && match0[0].eo > 0
    ensures next <= |result2| && |result2| - next < |result| - start && (end <==> next == |result2|)
    ensures result2[..next] + Replaced(m, rep, result2[next..]) == result[..start] + Replaced(m, rep, result[start..])
  {
    var gs, last := AdjustOffsets(match0, start);
    var so, eo := gs[0].so, gs[0].eo;
    end := eo == |result|;
    CapturesShift(result, start, match0);
    var text := rep(Captures(result, gs));
    result2 := result[..so] + text + result[eo..];
    Advance(m, rep, result, start, match0, text, result2);
    next := so + |text|;
  }

  /** `eval_replace_regex` */
  method ReplaceRegex(s: string, m: Matcher, rep: seq<string> -> string)
    returns (result: string, ghost found: seq<Found>)
    requires IsMatcher(m)
    ensures result == Replaced(m, rep, s)
    ensures Scanned(m, s, 0, found) && result == Assembled(rep, s, 0, found)
  {
    hide Scanned, Assembled, Captures;
    found := ReplacesFound(m, rep, s, 0);
    assert s[0..] == s;
    result := s;
    var start, end := 0, false;
    while start < |result|
      invariant 0 <= start <= |result|
      invariant result[..start] + Replaced(m, rep, result[start..]) == Replaced(m, rep, s)
      decreases |result| - start
    {
      var r := m(result[start..]);
      if r.None? || r.value[0].so < 0 || r.value[0].eo <= 0 { break; }
      result, start, end := ReplaceOne(result, start, m, rep, r.value);
      if end { break; }
    }
    NothingLeft(m, rep, result, start);
  }

  lemma NothingLeft(m: Matcher, rep: seq<string> -> string, s: string, start: nat)
    requires start <= |s| && (start == |s| || Stops(m(s[start..])))
    ensures s[..start] + Replaced(m, rep, s[start..]) == s
  {}

  /** What is before and after the text put in place of `before[start + so..start + eo]`. */
  lemma AroundText(before: string, start: nat, so: nat, eo: nat, text: string, after: string)
    requires so <= eo && start + eo <= |before|
    requires after == before[..start + so] + text + before[start + eo..]
    ensures var (rest, next) := (before[start..], start + so + |text|);
            && next <= |after| && after[next..] == before[start + eo..] && rest[eo..] == before[start + eo..]
            && after[..next] == before[..start] + (rest[..so] + text)
  {}

  /** One pass keeps the text before `start` and the meaning of the text after it. */
  lemma Advance(m: Matcher, rep: seq<string> -> string, before: string, start: nat, gs: seq<Group>,
                text: string, after: string)
    requires start < |before| && m(before[start..]) == Some(gs) && GroupsWithin(gs, |before| - start)
    requires gs[0].so >= 0 && gs[0].eo > 0
    requires text == rep(Captures(before[start..], gs))
    requires after == before[..start + gs[0].so] + text + before[start + gs[0].eo..]
    ensures var next := start + gs[0].so + |text|;
            && next <= |after|
            && after[next..] == before[start + gs[0].eo..]
            && before[..start] + Replaced(m, rep, before[start..]) == after[..next] + Replaced(m, rep, after[next..])
  {
    hide Captures, Replaced;
    var (so, eo, rest) := (gs[0].so, gs[0].eo, before[start..]);
    AroundText(before, start, so, eo, text, after);
    FirstMatch(m, rep, rest, gs);
    Regroup(before[..start], rest[..so], text, Replaced(m, rep, rest[eo..]));
  }

  lemma FirstMatch(m: Matcher, rep: seq<string> -> string, s: string, gs: seq<Group>)
    requires s != "" && m(s) == Some(gs) && GroupsWithin(gs, |s|) && gs[0].so >= 0 && gs[0].eo > 0
    ensures Replaced(m, rep, s) == s[..gs[0].so] + (rep(Captures(s, gs)) + Replaced(m, rep, s[gs[0].eo..]))
  {
    hide Captures;
  }

  lemma Regroup(a: string, b: string, c: string, d: string)
    ensures a + (b + (c + d)) == (a + (b + c)) + d
  {}

  // ------------------------------------------- the cuts do not depend on the replacement

  /** A text cut into kept parts and matches. */
  datatype Cutting = Rest(text: string) | Cut(kept: string, matched: string, captures: seq<string>, next: Cutting)

  function Cuts(m: Matcher, s: string): Cutting {
    if s == "" || Stops(m(s)) then Rest(s)
    else
      var gs := m(s).value;
      if gs[0].so <= gs[0].eo <= |s| then
        Cut(s[..gs[0].so], s[gs[0].so..gs[0].eo], Captures(s, gs), Cuts(m, s[gs[0].eo..]))
      else Rest(s)
  }

  function Source(c: Cutting): string {
    match c
    case Rest(text) => text
    case Cut(kept, matched, _, next) => kept + (matched + Source(next))
  }

  function Rendered(rep: seq<string> -> string, c: Cutting): string {
    match c
    case Rest(text) => text
    case Cut(kept, _, captures, next) => kept + (rep(captures) + Rendered(rep, next))
  }

  function MatchCount(c: Cutting): nat {
    match c
    case Rest(_) => 0
    case Cut(_, _, _, next) => 1 + MatchCount(next)
  }

  /** The original text alone decides where it is cut: the pieces make up the text, the result
      is the pieces with each match rendered, and replaced text is never scanned again. */
  lemma {:induction false} ReplacedIsRendering(m: Matcher, rep: seq<string> -> string, s: string)
    requires IsMatcher(m)
    ensures Source(Cuts(m, s)) == s
    ensures Replaced(m, rep, s) == Rendered(rep, Cuts(m, s))
    ensures MatchCount(Cuts(m, s)) <= |s|
    decreases |s|
  {
    if s != "" && !Stops(m(s)) {
      var gs := m(s).value;
      var so, eo := gs[0].so, gs[0].eo;
      ReplacedIsRendering(m, rep, s[eo..]);
      assert s == s[..so] + (s[so..eo] + s[eo..]);
    }
  }

  lemma WholeMatch(s: string, gs: seq<Group>)
    requires GroupsWithin(gs, |s|) && gs[0].so >= 0
    ensures Captures(s, gs)[0] == s[gs[0].so..gs[0].eo]
    ensures s[..gs[0].so] + (Captures(s, gs)[0] + s[gs[0].eo..]) == s
  {}

  /** Replacing every match by itself changes nothing. */
  lemma {:induction false} ReplaceByItself(m: Matcher, rep: seq<string> -> string, s: string)
    requires IsMatcher(m) && forall c: seq<string> :: |c| > 0 ==> rep(c) == c[0]
    ensures Replaced(m, rep, s) == s
    decreases |s|
  {
    if s != "" && !Stops(m(s)) {
      var gs := m(s).value;
      ReplaceByItself(m, rep, s[gs[0].eo..]);
      WholeMatch(s, gs);
    }
  }

  // -------------------------------------------------- what is replaced, in the original text

  /** The texts of the groups, up to the highest one that took part; the offsets of the match count
      from `from`, and a group that took no part has the empty text. */
  ghost predicate AreCaptures(s: string, from: nat, gs: seq<Group>, captures: seq<string>)
    requires from <= |s| && GroupsWithin(gs, |s| - from)
  {
    && 1 <= |captures| <= NMATCH
    && (|captures| > 1 ==> gs[|captures| - 1].so >= 0)
    && (forall k :: |captures| <= k < NMATCH ==> gs[k].so < 0)
    && forall i :: 0 <= i < |captures| ==>
         captures[i] == if gs[i].so >= 0 then s[from + gs[i].so..from + gs[i].eo] else ""
  }

  lemma CapturesAre(s: string, from: nat, gs: seq<Group>)
    requires from <= |s| && GroupsWithin(gs, |s| - from)
    ensures AreCaptures(s, from, gs, Captures(s[from..], gs))
  {
    hide LastMatch;
    var c := Captures(s[from..], gs);
    forall i | 0 <= i < |c| ensures c[i] == if gs[i].so >= 0 then s[from + gs[i].so..from + gs[i].eo] else "" {
      if gs[i].so >= 0 { assert s[from..][gs[i].so..gs[i].eo] == s[from + gs[i].so..from + gs[i].eo]; }
    }
  }

  /** A match in the original text: where the search began, what was found there, and what the
      replacement was given. */
  datatype Found = Found(from: nat, groups: seq<Group>, captures: seq<string>)

  /** The matches from `from` on: each search begins where the last match ended, and the last one
      finds nothing, or an empty match at its beginning. */
  ghost predicate Scanned(m: Matcher, s: string, from: nat, found: seq<Found>)
    decreases |found|
  {
    if found == [] then
      from == |s| || (from < |s| && match m(s[from..])
                                    case None => true
                                    case Some(gs) => |gs| == NMATCH && (gs[0].so < 0 || gs[0].eo <= 0))
    else
      var (f, n) := (found[0], |s| - from);
      && f.from == from < |s| && m(s[from..]) == Some(f.groups)
      && GroupsWithin(f.groups, n) && f.groups[0].so >= 0 && f.groups[0].eo > 0
      && AreCaptures(s, from, f.groups, f.captures)
      && Scanned(m, s, from + f.groups[0].eo, found[1..])
  }

  /** The text between the matches, and for each match its replacement. */
  ghost function Assembled(rep: seq<string> -> string, s: string, from: nat, found: seq<Found>): string
    decreases |found|
  {
    if from > |s| then ""
    else if found == [] || |found[0].groups| == 0 then s[from..]
    else
      var g := found[0].groups[0];
      if 0 <= g.so <= g.eo <= |s| - from then
        s[from..from + g.so] + (rep(found[0].captures) + Assembled(rep, s, from + g.eo, found[1..]))
      else ""
  }

  lemma OneMoreFound(m: Matcher, rep: seq<string> -> string, s: string, from: nat, gs: seq<Group>,
                     captures: seq<string>, more: seq<Found>)
    requires from < |s| && m(s[from..]) == Some(gs) && GroupsWithin(gs, |s| - from)
    requires gs[0].so >= 0 && gs[0].eo > 0 && AreCaptures(s, from, gs, captures)
    requires Scanned(m, s, from + gs[0].eo, more)
    ensures var found := [Found(from, gs, captures)] + more;
            && Scanned(m, s, from, found)
            && Assembled(rep, s, from, found)
               == s[from..from + gs[0].so] + (rep(captures) + Assembled(rep, s, from + gs[0].eo, more))
  {
    hide AreCaptures, Scanned, Assembled;
    var f := Found(from, gs, captures);
    var found := [f] + more;
    assert found[0] == f && found[1..] == more;
    ScannedStep(m, s, from, found);
    AssembledStep(rep, s, from, found);
  }

  lemma ScannedStep(m: Matcher, s: string, from: nat, found: seq<Found>)
    requires found != [] && found[0].from == from < |s| && m(s[from..]) == Some(found[0].groups)
    requires GroupsWithin(found[0].groups, |s| - from)
    requires found[0].groups[0].so >= 0 && found[0].groups[0].eo > 0
    requires AreCaptures(s, from, found[0].groups, found[0].captures)
    requires Scanned(m, s, from + found[0].groups[0].eo, found[1..])
    ensures Scanned(m, s, from, found)
  {
    hide AreCaptures;
  }

  lemma AssembledStep(rep: seq<string> -> string, s: string, from: nat, found: seq<Found>)
    requires from <= |s| && found != [] && |found[0].groups| > 0
    requires 0 <= found[0].groups[0].so <= found[0].groups[0].eo <= |s| - from
    ensures var g := found[0].groups[0];
            Assembled(rep, s, from, found)
            == s[from..from + g.so] + (rep(found[0].captures) + Assembled(rep, s, from + g.eo, found[1..]))
  {}

  lemma Slices(s: string, from: nat, so: nat, eo: nat)
    requires so <= eo && from + eo <= |s|
    ensures s[from..][eo..] == s[from + eo..] && s[from..][..so] == s[from..from + so]
  {}

  lemma NoneFound(m: Matcher, rep: seq<string> -> string, s: string, from: nat)
    requires IsMatcher(m) && from <= |s| && (s[from..] == "" || Stops(m(s[from..])))
    ensures Scanned(m, s, from, []) && Assembled(rep, s, from, []) == s[from..]
  {}

  lemma {:induction false} ReplacesFound(m: Matcher, rep: seq<string> -> string, s: string, from: nat)
    returns (found: seq<Found>)
    requires IsMatcher(m) && from <= |s|
    ensures Scanned(m, s, from, found) && Replaced(m, rep, s[from..]) == Assembled(rep, s, from, found)
    decreases |s| - from
  {
    hide Captures, Scanned, Assembled, AreCaptures, Replaced;
    var t := s[from..];
    if t == "" || Stops(m(t)) {
      NoneFound(m, rep, s, from);
      NothingLeft(m, rep, t, 0);
      found := [];
    } else {
      var gs := m(t).value;
      var (so, eo) := (gs[0].so, gs[0].eo);
      CapturesAre(s, from, gs);
      var more := ReplacesFound(m, rep, s, from + eo);
      found := [Found(from, gs, Captures(t, gs))] + more;
      OneMoreFound(m, rep, s, from, gs, Captures(t, gs), more);
      FirstMatch(m, rep, t, gs);
      Slices(s, from, so, eo);
    }
  }
}
