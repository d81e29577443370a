/** The four line patterns of the wish report, written out by hand.

    Each pattern is given twice: as a predicate over split points, which
    says which strings the regular expression accepts and where its groups
    lie, and as the extractor the parser calls. The correctness lemmas tie
    the two together, including which split the backtracking matcher picks
    when several are possible (greedy groups take as much as they can).

    `\d` and `\s` are the ASCII classes of module Text; `.` is any
    character and `$` the end of the string (a stripped report line holds
    no line feed). */
module Patterns {
  import opened Text
  import opened Records

  /** The trailing word of a character line. */
  const Marker: string := "Summoned"

  // ----- The count token `\d{1,3}(?:,\d{3})*` -----

  /** One to three digits, then any number of `,ddd` groups. */
  predicate IsGroupedCount(s: string)
    decreases |s|
  {
    if |s| <= 3 then 1 <= |s| && AllDigits(s)
    else |s| >= 5 && s[|s| - 4] == ',' && AllDigits(s[|s| - 3..]) && IsGroupedCount(s[..|s| - 4])
  }

  /** A count token is digits and commas only, so holds no whitespace. */
  lemma {:induction false} GroupedCountChars(s: string)
    requires IsGroupedCount(s)
    ensures |s| > 0
    ensures forall i :: 0 <= i < |s| ==> IsDigit(s[i]) || s[i] == ','
    ensures forall i :: 0 <= i < |s| ==> !IsSpace(s[i])
    decreases |s|
  {
    if |s| > 3 {
      GroupedCountChars(s[..|s| - 4]);
      assert forall i :: 0 <= i < |s| - 4 ==> s[i] == s[..|s| - 4][i];
      assert forall i :: |s| - 3 <= i < |s| ==> s[i] == s[|s| - 3..][i - (|s| - 3)];
    }
  }

  lemma {:induction false} DeleteCommasDigits(s: string)
    requires forall i :: 0 <= i < |s| ==> IsDigit(s[i]) || s[i] == ','
    ensures AllDigits(DeleteCommas(s))
    decreases |s|
  {
    if s != [] {
      DeleteCommasDigits(s[..|s| - 1]);
    }
  }

  /** `int(s.replace(',', ''))` for a count token. */
  function CountValue(s: string): nat
    requires IsGroupedCount(s)
  {
    GroupedCountChars(s);
    DeleteCommasDigits(s);
    DigitsValue(DeleteCommas(s))
  }

  lemma {:induction false} DeleteCommasAppend(s: string, t: string)
    ensures DeleteCommas(s + t) == DeleteCommas(s) + DeleteCommas(t)
    decreases |t|
  {
    if t == [] {
      assert s + t == s;
    } else {
      assert (s + t)[..|s + t| - 1] == s + t[..|t| - 1];
      DeleteCommasAppend(s, t[..|t| - 1]);
    }
  }

  lemma {:induction false} DeleteCommasOfDigits(s: string)
    requires AllDigits(s)
    ensures DeleteCommas(s) == s
    decreases |s|
  {
    if s != [] {
      assert s == s[..|s| - 1] + [s[|s| - 1]];
      DeleteCommasOfDigits(s[..|s| - 1]);
    }
  }

  /** Removing the commas of `front,ddd` keeps `ddd` as it is. */
  lemma DeleteCommasLastGroup(s: string)
    requires |s| >= 4 && s[|s| - 4] == ',' && AllDigits(s[|s| - 3..])
    ensures DeleteCommas(s) == DeleteCommas(s[..|s| - 4]) + s[|s| - 3..]
  {
    var front, group := s[..|s| - 4], s[|s| - 3..];
    var tail := [','] + group;
    assert s == front + tail;
    DeleteCommasAppend(front, tail);
    DeleteCommasAppend([','], group);
    DeleteCommasOfDigits(group);
    assert DeleteCommas([',']) == [];
    assert DeleteCommas(tail) == group;
  }

  /** The commas are thousands separators: the last group of three digits
      is the value modulo 1000 and the rest counts thousands. */
  lemma CountValueGroups(s: string)
    requires IsGroupedCount(s) && |s| > 3
    ensures CountValue(s) == 1000 * CountValue(s[..|s| - 4]) + DigitsValue(s[|s| - 3..])
  {
    var front, group := s[..|s| - 4], s[|s| - 3..];
    DeleteCommasLastGroup(s);
    GroupedCountChars(front);
    DeleteCommasDigits(front);
    var f := DeleteCommas(front);
    DigitsValueAppend(f, group);
    var a, b := DigitsValue(f), DigitsValue(group);
    assert |group| == 3 && Pow10(|group|) == 1000;
    assert DigitsValue(f + group) == a * 1000 + b;
    assert CountValue(front) == a;
    assert CountValue(s) == DigitsValue(f + group);
  }

  /** One to three digits make a count with nothing to remove. */
  lemma SmallCount(s: string)
    requires 1 <= |s| <= 3 && AllDigits(s)
    ensures IsGroupedCount(s) && CountValue(s) == DigitsValue(s)
  {
    DeleteCommasOfDigits(s);
  }

  /** A count followed by `,ddd` is a count worth a thousand times more
      plus `ddd`. */
  lemma GroupedCountSnoc(front: string, group: string)
    requires IsGroupedCount(front) && |group| == 3 && AllDigits(group)
    ensures IsGroupedCount(front + [','] + group)
    ensures CountValue(front + [','] + group) == 1000 * CountValue(front) + DigitsValue(group)
  {
    var s := front + [','] + group;
    GroupedCountChars(front);
    assert s[..|s| - 4] == front && s[|s| - 3..] == group;
    CountValueGroups(s);
  }

  // ----- The header pattern `^(\d+\.\d+)\s+([ABC])` -----

  predicate IsPhaseLetter(c: char)
  {
    c == 'A' || c == 'B' || c == 'C'
  }

  function PhaseOf(c: char): Phase
    requires IsPhaseLetter(c)
  {
    if c == 'A' then A else if c == 'B' then B else C
  }

  /** The groups of a header line: the version label and the phase. */
  datatype Section = Section(version: string, phase: Phase)

  /** `line` starts with digits `[..d]`, a dot at `d`, digits `[d+1..v]`,
      whitespace `[v..w]` and a phase letter at `w`; anything may follow. */
  predicate HeaderSplit(line: string, d: nat, v: nat, w: nat)
  {
    && 0 < d && d + 1 < v < w < |line|
    && AllDigits(line[..d]) && line[d] == '.' && AllDigits(line[d + 1..v])
    && AllSpaces(line[v..w]) && IsPhaseLetter(line[w])
  }

  ghost predicate IsHeaderLine(line: string)
  {
    exists d: nat, v: nat, w: nat :: HeaderSplit(line, d, v, w)
  }

  function MatchHeader(line: string): Option<Section>
  {
    var d := SpanDigits(line, 0);
    if 0 < d < |line| && line[d] == '.' then
      var v := SpanDigits(line, d + 1);
      var w := SpanSpaces(line, v);
      if d + 1 < v && v < w < |line| && IsPhaseLetter(line[w]) then
        Some(Section(line[..v], PhaseOf(line[w])))
      else None
    else None
  }

  /** MatchHeader accepts exactly the header lines, and returns the label
      `digits.digits` and the phase letter that follow each other there. */
  lemma HeaderMatchCorrect(line: string)
    ensures MatchHeader(line).Some? <==> IsHeaderLine(line)
    ensures forall d: nat, v: nat, w: nat :: HeaderSplit(line, d, v, w) ==>
      MatchHeader(line) == Some(Section(line[..v], PhaseOf(line[w])))
  {
    forall d: nat, v: nat, w: nat | HeaderSplit(line, d, v, w)
      ensures MatchHeader(line) == Some(Section(line[..v], PhaseOf(line[w])))
    {
      HeaderSplitUnique(line, d, v, w);
    }
    if MatchHeader(line).Some? {
      var d := SpanDigits(line, 0);
      var v := SpanDigits(line, d + 1);
      var w := SpanSpaces(line, v);
      assert HeaderSplit(line, d, v, w);
    }
  }

  /** The header split points are the ends of maximal runs. */
  lemma HeaderSplitUnique(line: string, d: nat, v: nat, w: nat)
    requires HeaderSplit(line, d, v, w)
    ensures d == SpanDigits(line, 0)
    ensures v == SpanDigits(line, d + 1)
    ensures w == SpanSpaces(line, v)
  {
    assert forall i :: 0 <= i < d ==> line[..d][i] == line[i];
    assert forall i :: d + 1 <= i < v ==> line[d + 1..v][i - (d + 1)] == line[i];
    assert forall i :: v <= i < w ==> line[v..w][i - v] == line[i];
    SpanDigitsAt(line, 0, d);
    SpanDigitsAt(line, d + 1, v);
    SpanSpacesAt(line, v, w);
  }

  lemma SpanDigitsAt(s: string, i: nat, j: nat)
    requires i <= j <= |s|
    requires forall m :: i <= m < j ==> IsDigit(s[m])
    requires j < |s| ==> !IsDigit(s[j])
    ensures SpanDigits(s, i) == j
  {
  }

  lemma SpanSpacesAt(s: string, i: nat, j: nat)
    requires i <= j <= |s|
    requires forall m :: i <= m < j ==> IsSpace(s[m])
    requires j < |s| ==> !IsSpace(s[j])
    ensures SpanSpaces(s, i) == j
  {
  }

  lemma SpanNonSpacesAt(s: string, i: nat, j: nat)
    requires i <= j <= |s|
    requires forall m :: i <= m < j ==> !IsSpace(s[m])
    requires j < |s| ==> IsSpace(s[j])
    ensures SpanNonSpaces(s, i) == j
  {
  }

  // ----- The count-only pattern `^(\d{1,3}(?:,\d{3})*)\s*$` -----

  /** `line` is a count token `[..k]` followed by whitespace only. */
  predicate CountLineSplit(line: string, k: nat)
  {
    0 < k <= |line| && IsGroupedCount(line[..k]) && AllSpaces(line[k..])
  }

  ghost predicate IsCountLine(line: string)
  {
    exists k: nat :: CountLineSplit(line, k)
  }

  function MatchCountLine(line: string): Option<nat>
  {
    var k := SpanNonSpaces(line, 0);
    if 0 < k && IsGroupedCount(line[..k]) && AllSpaces(line[k..]) then Some(CountValue(line[..k]))
    else None
  }

  /** MatchCountLine accepts exactly the count-only lines and returns the
      value of the count with its commas removed. */
  lemma CountLineMatchCorrect(line: string)
    ensures MatchCountLine(line).Some? <==> IsCountLine(line)
    ensures forall k: nat :: CountLineSplit(line, k) ==> MatchCountLine(line) == Some(CountValue(line[..k]))
  {
    forall k: nat | CountLineSplit(line, k) ensures MatchCountLine(line) == Some(CountValue(line[..k])) {
      CountSplitAtFirstSpace(line, k);
    }
    if MatchCountLine(line).Some? {
      assert CountLineSplit(line, SpanNonSpaces(line, 0));
    }
  }

  /** A count token followed by whitespace (or the end) ends at the first
      whitespace of the line. */
  lemma CountSplitAtFirstSpace(line: string, k: nat)
    requires 0 < k <= |line| && IsGroupedCount(line[..k])
    requires k < |line| ==> IsSpace(line[k])
    ensures SpanNonSpaces(line, 0) == k
  {
    GroupedCountChars(line[..k]);
    assert forall i :: 0 <= i < k ==> line[..k][i] == line[i];
    SpanNonSpacesAt(line, 0, k);
  }

  // ----- The character pattern `^(.+)\s+Summoned$` -----

  /** `line` is a non-empty name `[..p]`, whitespace `[p..|line| - 8]`
      and the marker word at the very end. */
  predicate NameSplit(line: string, p: nat)
  {
    0 < p && p + 8 < |line| && AllSpaces(line[p..|line| - 8]) && line[|line| - 8..] == Marker
  }

  ghost predicate IsNameLine(line: string)
  {
    exists p: nat :: NameSplit(line, p)
  }

  function MatchNameLine(line: string): Option<string>
  {
    if |line| >= 10 && line[|line| - 8..] == Marker && IsSpace(line[|line| - 9]) then
      Some(line[..|line| - 9])
    else None
  }

  /** MatchNameLine accepts exactly the character lines; the name it returns
      is the longest one the pattern allows (the greedy `(.+)`), so only
      the last whitespace character before the marker is dropped. */
  lemma NameMatchCorrect(line: string)
    ensures MatchNameLine(line).Some? <==> IsNameLine(line)
    ensures forall name :: MatchNameLine(line) == Some(name) ==>
      NameSplit(line, |name|) && name == line[..|name|] &&
      forall p: nat :: NameSplit(line, p) ==> p <= |name|
  {
    if IsNameLine(line) {
      var p: nat :| NameSplit(line, p);
      assert line[p..|line| - 8][|line| - 9 - p] == line[|line| - 9];
    }
    if MatchNameLine(line).Some? {
      assert NameSplit(line, |line| - 9);
    }
  }

  // ----- The mixed pattern `^(\d{1,3}(?:,\d{3})*)\s+(.+)\s+Summoned$` -----

  /** `line` is a count token `[..k]`, whitespace `[k..j]`, a non-empty
      name `[j..p]`, whitespace `[p..|line| - 8]` and the marker word. */
  predicate MixedSplit(line: string, k: nat, j: nat, p: nat)
  {
    && 0 < k < j < p && p + 8 < |line|
    && IsGroupedCount(line[..k]) && AllSpaces(line[k..j])
    && AllSpaces(line[p..|line| - 8]) && line[|line| - 8..] == Marker
  }

  ghost predicate IsMixedLine(line: string)
  {
    exists k: nat, j: nat, p: nat :: MixedSplit(line, k, j, p)
  }

  /** The split the backtracking matcher settles on: the first group is
      forced, the `\s+` after the count is as long as possible, and then
      the name is as long as possible. */
  ghost predicate PreferredMixedSplit(line: string, k: nat, j: nat, p: nat)
  {
    && MixedSplit(line, k, j, p)
    && forall k': nat, j': nat, p': nat :: MixedSplit(line, k', j', p') ==> k' == k && (j' < j || (j' == j && p' <= p))
  }

  function MatchMixed(line: string): Option<(nat, string)>
  {
    var k := SpanNonSpaces(line, 0);
    if 0 < k && k + 11 <= |line| && IsGroupedCount(line[..k])
       && line[|line| - 8..] == Marker && IsSpace(line[|line| - 9])
    then
      var e := SpanSpaces(line, k);
      var j := if e <= |line| - 10 then e else |line| - 10;
      Some((CountValue(line[..k]), line[j..|line| - 9]))
    else None
  }

  /** MatchMixed accepts exactly the mixed lines and returns the count and
      the name of the split the matcher settles on. */
  lemma MixedMatchCorrect(line: string)
    ensures MatchMixed(line).Some? <==> IsMixedLine(line)
    ensures IsMixedLine(line) ==> exists k: nat, j: nat, p: nat :: PreferredMixedSplit(line, k, j, p)
    ensures forall k: nat, j: nat, p: nat :: PreferredMixedSplit(line, k, j, p) ==>
      MatchMixed(line) == Some((CountValue(line[..k]), line[j..p]))
  {
    MixedAccepts(line);
    PreferredMixedValue(line);
  }

  lemma MixedAccepts(line: string)
    ensures MatchMixed(line).Some? <==> IsMixedLine(line)
    ensures IsMixedLine(line) ==> exists k: nat, j: nat, p: nat :: PreferredMixedSplit(line, k, j, p)
  {
    if IsMixedLine(line) {
      var k: nat, j: nat, p: nat :| MixedSplit(line, k, j, p);
      MixedSplitBounds(line, k, j, p);
      MatcherSplitIsPreferred(line);
    } else if MatchMixed(line).Some? {
      MixedSplitExists(line);
    }
  }

  lemma PreferredMixedValue(line: string)
    ensures forall k: nat, j: nat, p: nat :: PreferredMixedSplit(line, k, j, p) ==>
      MatchMixed(line) == Some((CountValue(line[..k]), line[j..p]))
  {
    forall k: nat, j: nat, p: nat | PreferredMixedSplit(line, k, j, p)
      ensures MatchMixed(line) == Some((CountValue(line[..k]), line[j..p]))
    {
      PreferredIsMatcherSplit(line, k, j, p);
      MatchMixedValue(line);
    }
  }

  /** The split MatchMixed reads off is the preferred one. */
  lemma MatcherSplitIsPreferred(line: string)
    requires MatchMixed(line).Some?
    ensures PreferredMixedSplit(line, SpanNonSpaces(line, 0), MixedNameStart(line), |line| - 9)
  {
    MixedSplitExists(line);
    forall k: nat, j: nat, p: nat | MixedSplit(line, k, j, p)
      ensures k == SpanNonSpaces(line, 0) && (j < MixedNameStart(line) || (j == MixedNameStart(line) && p <= |line| - 9))
    {
      MixedSplitBounds(line, k, j, p);
    }
  }

  /** A preferred split is the one MatchMixed reads off. */
  lemma PreferredIsMatcherSplit(line: string, k: nat, j: nat, p: nat)
    requires PreferredMixedSplit(line, k, j, p)
    ensures MatchMixed(line).Some?
    ensures k == SpanNonSpaces(line, 0) && j == MixedNameStart(line) && p == |line| - 9
  {
    MixedSplitBounds(line, k, j, p);
    MixedSplitExists(line);
    var k0, j0, p0 := SpanNonSpaces(line, 0), MixedNameStart(line), |line| - 9;
    assert MixedSplit(line, k0, j0, p0);
    assert j0 < j || (j0 == j && p0 <= p);
  }

  lemma MatchMixedValue(line: string)
    requires MatchMixed(line).Some?
    ensures MatchMixed(line) == Some((CountValue(line[..SpanNonSpaces(line, 0)]), line[MixedNameStart(line)..|line| - 9]))
  {
    var k := SpanNonSpaces(line, 0);
    var e := SpanSpaces(line, k);
    assert |line| >= 10;
    assert MixedNameStart(line) == if e <= |line| - 10 then e else |line| - 10;
  }

  /** Where MatchMixed starts the name: after the run of whitespace that
      follows the count, but leaving at least one character for the name. */
  function MixedNameStart(line: string): nat
  {
    var k := SpanNonSpaces(line, 0);
    var e := SpanSpaces(line, k);
    if |line| >= 10 && e > |line| - 10 then |line| - 10 else e
  }

  /** What MatchMixed checks before it accepts a line, and where it puts
      the name. */
  predicate MixedGuards(line: string)
  {
    var k := SpanNonSpaces(line, 0);
    && 0 < k && k + 11 <= |line| && IsGroupedCount(line[..k]) && IsSpace(line[k])
    && line[|line| - 8..] == Marker && IsSpace(line[|line| - 9])
    && k < MixedNameStart(line) <= SpanSpaces(line, k) && MixedNameStart(line) < |line| - 9
  }

  lemma MatchMixedGuards(line: string)
    requires MatchMixed(line).Some?
    ensures MixedGuards(line)
  {
  }

  lemma SpacesSlice(line: string, i: nat, j: nat)
    requires i <= j <= |line| && forall m :: i <= m < j ==> IsSpace(line[m])
    ensures AllSpaces(line[i..j])
  {
    forall m | 0 <= m < j - i ensures IsSpace(line[i..j][m]) {
      assert line[i..j][m] == line[i + m];
    }
  }

  lemma MixedSplitExists(line: string)
    requires MatchMixed(line).Some?
    ensures MixedSplit(line, SpanNonSpaces(line, 0), MixedNameStart(line), |line| - 9)
  {
    MatchMixedGuards(line);
    GuardedSplit(line);
  }

  lemma GuardedSplit(line: string)
    requires MixedGuards(line)
    ensures MixedSplit(line, SpanNonSpaces(line, 0), MixedNameStart(line), |line| - 9)
  {
    var k, j, p := SpanNonSpaces(line, 0), MixedNameStart(line), |line| - 9;
    SpacesSlice(line, k, j);
    SpacesSlice(line, p, |line| - 8);
  }

  /** Any split of a mixed line has the count ending at the first
      whitespace, the name starting no later than MixedNameStart and ending
      no later than nine characters before the end. */
  lemma MixedSplitBounds(line: string, k: nat, j: nat, p: nat)
    requires MixedSplit(line, k, j, p)
    ensures k == SpanNonSpaces(line, 0)
    ensures MatchMixed(line).Some?
    ensures j <= MixedNameStart(line) && p <= |line| - 9
  {
    assert line[k..j][0] == line[k];
    CountSplitAtFirstSpace(line, k);
    assert line[p..|line| - 8][|line| - 9 - p] == line[|line| - 9];
    assert k + 11 <= |line| && IsSpace(line[|line| - 9]);
    assert forall m :: k <= m < j ==> IsSpace(line[m]) by {
      forall m | k <= m < j ensures IsSpace(line[m]) {
        assert line[k..j][m - k] == line[m];
      }
    }
    assert j <= SpanSpaces(line, k);
  }

  // ----- One direction at a time, for callers that need only one fact -----

  lemma HeaderMatchOf(line: string, d: nat, v: nat, w: nat)
    requires HeaderSplit(line, d, v, w)
    ensures MatchHeader(line) == Some(Section(line[..v], PhaseOf(line[w])))
  {
    HeaderMatchCorrect(line);
  }

  lemma NoHeaderMatch(line: string)
    requires !IsHeaderLine(line)
    ensures MatchHeader(line) == None
  {
    HeaderMatchCorrect(line);
  }

  lemma MixedMatchOf(line: string, k: nat, j: nat, p: nat)
    requires PreferredMixedSplit(line, k, j, p)
    ensures MatchMixed(line) == Some((CountValue(line[..k]), line[j..p]))
  {
    MixedMatchCorrect(line);
  }

  lemma NoMixedMatch(line: string)
    requires !IsMixedLine(line)
    ensures MatchMixed(line) == None
  {
    MixedMatchCorrect(line);
  }

  lemma CountMatchOf(line: string, k: nat)
    requires CountLineSplit(line, k)
    ensures MatchCountLine(line) == Some(CountValue(line[..k]))
  {
    CountLineMatchCorrect(line);
  }

  lemma NoCountMatch(line: string)
    requires !IsCountLine(line)
    ensures MatchCountLine(line) == None
  {
    CountLineMatchCorrect(line);
  }

  lemma NameMatchOf(line: string, p: nat)
    requires NameSplit(line, p) && forall p': nat :: NameSplit(line, p') ==> p' <= p
    ensures MatchNameLine(line) == Some(line[..p])
  {
    NameMatchCorrect(line);
  }

  lemma NoNameMatch(line: string)
    requires !IsNameLine(line)
    ensures MatchNameLine(line) == None
  {
    NameMatchCorrect(line);
  }
}
