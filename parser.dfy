/** The report parser: a cursor over the stripped report lines with two
    carried pieces of state, the current version label and phase, set by
    section headers. Every other line is tried, in a fixed order, as a
    one-line record (count, name, marker), then as a count line whose
    character line follows after any blank lines; anything else is skipped. */
module ReportParser {
  import opened Text
  import opened Records
  import opened Patterns
  import VersionTimeline

  /** Phase B starts this many days after the start of its version. */
  const PhaseBOffset: int := 21

  /** `timeline.get(version, 0)`. */
  function Lookup(timeline: map<string, int>, version: string): int
  {
    if version in timeline then timeline[version] else 0
  }

  function PhaseOffset(p: Phase): int
  {
    if p == B then PhaseBOffset else 0
  }

  /** `int(version.split('.')[0])` for a version label: the leading digits. */
  function MajorOf(version: string): nat
  {
    var d := SpanDigits(version, 0);
    assert AllDigits(version[..d]) by {
      forall m | 0 <= m < d ensures IsDigit(version[..d][m]) {
        assert version[..d][m] == version[m];
      }
    }
    DigitsValue(version[..d])
  }

  /** The record appended for character `name` with `count` wishes under
      the current section. */
  function NewRecord(timeline: map<string, int>, s: Section, name: string, count: nat): BannerRecord
  {
    BannerRecord(s.version, s.phase, name, count,
      Lookup(timeline, s.version) + PhaseOffset(s.phase), MajorOf(s.version), None, 0)
  }

  /** The first non-blank line at or after `i`, or `|lines|`. */
  function NextNonBlank(lines: seq<string>, i: nat): (j: nat)
    requires i <= |lines|
    ensures i <= j <= |lines|
    ensures forall m :: i <= m < j ==> lines[m] == ""
    ensures j < |lines| ==> lines[j] != ""
    decreases |lines| - i
  {
    if i < |lines| && lines[i] == "" then NextNonBlank(lines, i + 1) else i
  }

  /** The outcome of one pass of the loop body: the new cursor, the current
      section and the records appended. */
  datatype Step = Step(next: nat, section: Option<Section>, emitted: seq<BannerRecord>)

  /** One pass of the loop body at cursor `i` with current section `cur`. */
  function StepAt(lines: seq<string>, timeline: map<string, int>, i: nat, cur: Option<Section>): (st: Step)
    requires i < |lines|
    ensures i < st.next <= |lines|
    ensures |st.emitted| <= 1
    ensures st.emitted != [] ==> cur.Some? && st.section == cur
    ensures st.section != cur ==> st.next == i + 1 && st.emitted == [] && MatchHeader(lines[i]) == st.section
    ensures cur.None? ==> st.next == i + 1 && st.emitted == []
    ensures st.emitted != [] ==>
      st.emitted[0].character != [] &&
      st.emitted[0] == NewRecord(timeline, cur.value, st.emitted[0].character, st.emitted[0].wishCount)
  {
    var line := lines[i];
    if line == "" then Step(i + 1, cur, [])
    else match MatchHeader(line)
      case Some(sec) => Step(i + 1, Some(sec), [])
      case None =>
        if cur.None? then Step(i + 1, cur, [])
        else match MatchMixed(line)
          case Some(m) => Step(i + 1, cur, [NewRecord(timeline, cur.value, m.1, m.0)])
          case None =>
            match MatchCountLine(line)
            case None => Step(i + 1, cur, [])
            case Some(count) =>
              var n := NextNonBlank(lines, i + 1);
              if n < |lines| && MatchNameLine(lines[n]).Some? then
                Step(n + 1, cur, [NewRecord(timeline, cur.value, MatchNameLine(lines[n]).value, count)])
              else Step(i + 1, cur, [])
  }

  /** The records the loop appends from cursor `i` on. */
  function ParseFrom(lines: seq<string>, timeline: map<string, int>, i: nat, cur: Option<Section>): seq<BannerRecord>
    requires i <= |lines|
    decreases |lines| - i, 1
  {
    if i == |lines| then [] else ParseAfter(lines, timeline, i, StepAt(lines, timeline, i, cur))
  }

  /** The records of pass `st` at cursor `i`, then those the loop appends
      from the cursor and section that pass leaves behind. */
  function ParseAfter(lines: seq<string>, timeline: map<string, int>, i: nat, st: Step): seq<BannerRecord>
    requires i < st.next <= |lines|
    decreases |lines| - i, 0
  {
    st.emitted + ParseFrom(lines, timeline, st.next, st.section)
  }

  /** One unfolding of ParseFrom at a known step: the records of one pass
      come before those of every later pass. */
  lemma ParseFromStep(lines: seq<string>, timeline: map<string, int>, i: nat, cur: Option<Section>, st: Step)
    requires i < |lines| && StepAt(lines, timeline, i, cur) == st
    ensures st.next <= |lines|
    ensures ParseFrom(lines, timeline, i, cur) == st.emitted + ParseFrom(lines, timeline, st.next, st.section)
  {
  }

  /** The records `parse_wish_stats` collects from the report lines. */
  function Parse(lines: seq<string>, timeline: map<string, int>): seq<BannerRecord>
  {
    ParseFrom(lines, timeline, 0, None)
  }

  /** The look-ahead over blank lines that follows a count-only line. */
  method SkipBlankLines(lines: seq<string>, start: nat) returns (next: nat)
    requires start <= |lines|
    ensures next == NextNonBlank(lines, start)
  {
    next := start;
    while next < |lines| && lines[next] == ""
      invariant start <= next <= |lines|
      invariant NextNonBlank(lines, next) == NextNonBlank(lines, start)
      decreases |lines| - next
    {
      next := next + 1;
    }
  }

  /** One pass of the loop body at cursor `i`: each early return is one of
      the loop's `continue`s. */
  method ParseLine(lines: seq<string>, timeline: map<string, int>, i: nat, current: Option<Section>)
    returns (next: nat, section: Option<Section>, emitted: seq<BannerRecord>)
    requires i < |lines|
    ensures Step(next, section, emitted) == StepAt(lines, timeline, i, current)
  {
    next, section, emitted := i + 1, current, [];
    var line := lines[i];
    if line == "" {
      return;
    }
    var header := MatchHeader(line);
    if header.Some? {
      section := header;
      return;
    }
    if current.None? {
      return;
    }
    var mixed := MatchMixed(line);
    if mixed.Some? {
      var (count, name) := mixed.value;
      emitted := [NewRecord(timeline, current.value, name, count)];
      return;
    }
    var countMatch := MatchCountLine(line);
    if countMatch.Some? {
      var j := SkipBlankLines(lines, i + 1);
      if j < |lines| {
        var nameMatch := MatchNameLine(lines[j]);
        if nameMatch.Some? {
          next, emitted := j + 1, [NewRecord(timeline, current.value, nameMatch.value, countMatch.value)];
        }
      }
    }
  }

  /** Parses the (already read and stripped) report lines. */
  method ParseWishStats(lines: seq<string>) returns (data: seq<BannerRecord>)
    ensures data == Parse(lines, VersionTimeline.Timeline())
  {
    var timeline := VersionTimeline.BuildVersionTimeline();
    data := [];
    var current: Option<Section> := None;
    var i := 0;
    while i < |lines|
      invariant 0 <= i <= |lines|
      invariant data + ParseFrom(lines, timeline, i, current) == Parse(lines, timeline)
      decreases |lines| - i
    {
      var next, section, emitted := ParseLine(lines, timeline, i, current);
      ParseFromStep(lines, timeline, i, current, Step(next, section, emitted));
      ConcatAssoc(data, emitted, ParseFrom(lines, timeline, next, section));
      data, current, i := data + emitted, section, next;
    }
  }

  // ----- One lemma per line shape: what one pass of the loop does -----

  /** A header line sets the current version and phase from its two groups,
      consumes one line and emits nothing, whether or not a section was
      already open. */
  lemma HeaderLineSetsSection(lines: seq<string>, timeline: map<string, int>, i: nat, cur: Option<Section>,
                              d: nat, v: nat, w: nat)
    requires i < |lines| && HeaderSplit(lines[i], d, v, w)
    ensures StepAt(lines, timeline, i, cur) == Step(i + 1, Some(Section(lines[i][..v], PhaseOf(lines[i][w]))), [])
  {
    HeaderMatchOf(lines[i], d, v, w);
    assert lines[i] != "";
  }

  /** Under a section, a one-line record `<count> <name> Summoned` emits
      exactly one record with the count (commas removed) and the name of
      the split the matcher settles on, and consumes one line. */
  lemma MixedLineEmitsRecord(lines: seq<string>, timeline: map<string, int>, i: nat, sec: Section,
                             k: nat, j: nat, p: nat)
    requires i < |lines| && !IsHeaderLine(lines[i]) && PreferredMixedSplit(lines[i], k, j, p)
    ensures StepAt(lines, timeline, i, Some(sec))
         == Step(i + 1, Some(sec), [NewRecord(timeline, sec, lines[i][j..p], CountValue(lines[i][..k]))])
  {
    NoHeaderMatch(lines[i]);
    MixedMatchOf(lines[i], k, j, p);
    assert lines[i] != "" by { assert MatchMixed("") == None; }
  }

  /** Under a section, a count-only line whose next non-blank line `n` is a
      character line emits one record combining the two, with the longest
      name the character pattern allows, and moves the cursor past `n`. */
  lemma TwoLineEmitsRecord(lines: seq<string>, timeline: map<string, int>, i: nat, sec: Section,
                           k: nat, n: nat, p: nat)
    requires i < n < |lines| && (forall m :: i < m < n ==> lines[m] == "") && lines[n] != ""
    requires !IsHeaderLine(lines[i]) && !IsMixedLine(lines[i]) && CountLineSplit(lines[i], k)
    requires NameSplit(lines[n], p) && forall p': nat :: NameSplit(lines[n], p') ==> p' <= p
    ensures StepAt(lines, timeline, i, Some(sec))
         == Step(n + 1, Some(sec), [NewRecord(timeline, sec, lines[n][..p], CountValue(lines[i][..k]))])
  {
    NoHeaderMatch(lines[i]);
    NoMixedMatch(lines[i]);
    CountMatchOf(lines[i], k);
    NameMatchOf(lines[n], p);
    NextNonBlankAt(lines, i + 1, n);
    CountThenNameStep(lines, timeline, i, sec, CountValue(lines[i][..k]), lines[n][..p]);
  }

  lemma NextNonBlankAt(lines: seq<string>, i: nat, n: nat)
    requires i <= n < |lines| && (forall m :: i <= m < n ==> lines[m] == "") && lines[n] != ""
    ensures NextNonBlank(lines, i) == n
  {
  }

  lemma CountThenNameStep(lines: seq<string>, timeline: map<string, int>, i: nat, sec: Section,
                          count: nat, name: string)
    requires i < |lines| && MatchHeader(lines[i]) == None && MatchMixed(lines[i]) == None
    requires MatchCountLine(lines[i]) == Some(count)
    requires NextNonBlank(lines, i + 1) < |lines| && MatchNameLine(lines[NextNonBlank(lines, i + 1)]) == Some(name)
    ensures StepAt(lines, timeline, i, Some(sec))
         == Step(NextNonBlank(lines, i + 1) + 1, Some(sec), [NewRecord(timeline, sec, name, count)])
  {
    assert lines[i] != "" by { assert MatchCountLine("") == None; }
  }

  /** Under a section, a count-only line whose next non-blank line is
      missing or is not a character line emits nothing and consumes only
      itself. */
  lemma TwoLineFallsBack(lines: seq<string>, timeline: map<string, int>, i: nat, sec: Section, k: nat)
    requires i < |lines| && !IsHeaderLine(lines[i]) && !IsMixedLine(lines[i]) && CountLineSplit(lines[i], k)
    requires forall n :: i < n < |lines| && lines[n] != "" && (forall m :: i < m < n ==> lines[m] == "") ==>
      !IsNameLine(lines[n])
    ensures StepAt(lines, timeline, i, Some(sec)) == Step(i + 1, Some(sec), [])
  {
    NoHeaderMatch(lines[i]);
    NoMixedMatch(lines[i]);
    CountMatchOf(lines[i], k);
    assert lines[i] != "" by { assert MatchCountLine("") == None; }
    var n := NextNonBlank(lines, i + 1);
    if n < |lines| {
      NoNameMatch(lines[n]);
    }
  }

  /** A line of no known shape (a blank line, a win-rate line, ...) is
      skipped without effect. */
  lemma OtherLineSkipped(lines: seq<string>, timeline: map<string, int>, i: nat, cur: Option<Section>)
    requires i < |lines| && !IsHeaderLine(lines[i]) && !IsMixedLine(lines[i]) && !IsCountLine(lines[i])
    ensures StepAt(lines, timeline, i, cur) == Step(i + 1, cur, [])
  {
    NoHeaderMatch(lines[i]);
    NoMixedMatch(lines[i]);
    NoCountMatch(lines[i]);
  }

  /** Before the first header nothing is emitted: the lines up to the first
      header are skipped and parsing resumes there with no section. */
  lemma SkipsUntilHeader(lines: seq<string>, timeline: map<string, int>, i: nat, h: nat)
    requires i <= h <= |lines|
    requires forall m :: i <= m < h ==> !IsHeaderLine(lines[m])
    ensures ParseFrom(lines, timeline, i, None) == ParseFrom(lines, timeline, h, None)
  {
    forall m | i <= m < h ensures MatchHeader(lines[m]) == None {
      NoHeaderMatch(lines[m]);
    }
    SkipUnmatched(lines, timeline, i, h);
  }

  lemma {:induction false} SkipUnmatched(lines: seq<string>, timeline: map<string, int>, i: nat, h: nat)
    requires i <= h <= |lines|
    requires forall m :: i <= m < h ==> MatchHeader(lines[m]) == None
    ensures ParseFrom(lines, timeline, i, None) == ParseFrom(lines, timeline, h, None)
    decreases h - i
  {
    if i < h {
      SkipStep(lines, timeline, i);
      SkipUnmatched(lines, timeline, i + 1, h);
    }
  }

  lemma SkipStep(lines: seq<string>, timeline: map<string, int>, i: nat)
    requires i < |lines| && MatchHeader(lines[i]) == None
    ensures ParseFrom(lines, timeline, i, None) == ParseFrom(lines, timeline, i + 1, None)
  {
    var st := StepAt(lines, timeline, i, None);
    assert st == Step(i + 1, None, []);
    ParseFromStep(lines, timeline, i, None, st);
    assert [] + ParseFrom(lines, timeline, i + 1, None) == ParseFrom(lines, timeline, i + 1, None);
  }

  /** A report without a header line yields no record. */
  lemma NoHeaderNoRecords(lines: seq<string>, timeline: map<string, int>)
    requires forall m :: 0 <= m < |lines| ==> !IsHeaderLine(lines[m])
    ensures Parse(lines, timeline) == []
  {
    SkipsUntilHeader(lines, timeline, 0, |lines|);
  }

  // ----- Properties of every parsed record -----

  /** `\d+\.\d+`, the label a header line captures. */
  ghost predicate IsVersionLabel(v: string)
  {
    exists d: nat :: 0 < d && d + 1 < |v| && AllDigits(v[..d]) && v[d] == '.' && AllDigits(v[d + 1..])
  }

  /** The label a header carries has the `digits.digits` form. */
  lemma HeaderLabel(line: string)
    requires MatchHeader(line).Some?
    ensures IsVersionLabel(MatchHeader(line).value.version)
  {
    var d := SpanDigits(line, 0);
    var v := SpanDigits(line, d + 1);
    var tag := line[..v];
    assert tag == MatchHeader(line).value.version;
    assert AllDigits(tag[..d]) by {
      forall m | 0 <= m < d ensures IsDigit(tag[..d][m]) {
        assert tag[..d][m] == line[m];
      }
    }
    var minor := tag[d + 1..];
    assert AllDigits(minor) by {
      forall m | 0 <= m < |minor| ensures IsDigit(minor[m]) {
        assert minor[m] == line[d + 1 + m];
      }
    }
  }

  /** The major version of a label is the number before its dot. */
  lemma MajorOfLabel(v: string, d: nat)
    requires 0 < d && d + 1 < |v| && AllDigits(v[..d]) && v[d] == '.' && AllDigits(v[d + 1..])
    ensures MajorOf(v) == DigitsValue(v[..d])
  {
    assert forall m :: 0 <= m < d ==> v[..d][m] == v[m];
    SpanDigitsAt(v, 0, d);
  }

  /** What holds of every record the parser emits under `timeline`: its
      days are the version's offset (0 when the version is not in the
      table) plus 21 in phase B, its major version is the number before the
      dot of its label, the label has the `digits.digits` form, the name is
      not empty, and no rerun information is set yet. */
  ghost predicate ParsedRecord(timeline: map<string, int>, r: BannerRecord)
  {
    && r.daysSinceLaunch == (if r.version in timeline then timeline[r.version] else 0) + (if r.phase == B then 21 else 0)
    && r.majorVersion == MajorOf(r.version)
    && IsVersionLabel(r.version)
    && r.character != []
    && r.rerunInterval == None && r.rerunCount == 0
  }

  lemma {:induction false} ParsedRecordsFromSection(lines: seq<string>, timeline: map<string, int>, i: nat, cur: Option<Section>)
    requires i <= |lines|
    requires cur.Some? ==> IsVersionLabel(cur.value.version)
    ensures forall r :: r in ParseFrom(lines, timeline, i, cur) ==> ParsedRecord(timeline, r)
    decreases |lines| - i
  {
    if i < |lines| {
      var st := StepAt(lines, timeline, i, cur);
      ParseFromStep(lines, timeline, i, cur, st);
      if st.section != cur {
        HeaderLabel(lines[i]);
      }
      ParsedRecordsFromSection(lines, timeline, st.next, st.section);
    }
  }

  /** Every record of a parse satisfies ParsedRecord. */
  lemma ParsedRecords(lines: seq<string>, timeline: map<string, int>)
    ensures forall r :: r in Parse(lines, timeline) ==> ParsedRecord(timeline, r)
  {
    ParsedRecordsFromSection(lines, timeline, 0, None);
  }

  /** Each record consumes at least one line of its own. */
  lemma {:induction false} ParseFromBound(lines: seq<string>, timeline: map<string, int>, i: nat, cur: Option<Section>)
    requires i <= |lines|
    ensures |ParseFrom(lines, timeline, i, cur)| <= |lines| - i
    decreases |lines| - i
  {
    if i < |lines| {
      var st := StepAt(lines, timeline, i, cur);
      ParseFromStep(lines, timeline, i, cur, st);
      ParseFromBound(lines, timeline, st.next, st.section);
    }
  }

  /** Record `r` is read at line `i`: either `i` is a one-line record with
      `r`'s count and name, or `i` is a count-only line with `r`'s count
      whose next non-blank line is a character line with `r`'s name. */
  ghost predicate ReadAt(lines: seq<string>, i: nat, r: BannerRecord)
    requires i < |lines|
  {
    || MatchMixed(lines[i]) == Some((r.wishCount, r.character))
    || (&& MatchMixed(lines[i]) == None
        && MatchCountLine(lines[i]) == Some(r.wishCount)
        && NextNonBlank(lines, i + 1) < |lines|
        && MatchNameLine(lines[NextNonBlank(lines, i + 1)]) == Some(r.character))
  }

  /** The cursor positions at which the loop appends a record, from `i` on. */
  ghost function OriginsFrom(lines: seq<string>, timeline: map<string, int>, i: nat, cur: Option<Section>): seq<nat>
    requires i <= |lines|
    decreases |lines| - i
  {
    if i == |lines| then []
    else
      var st := StepAt(lines, timeline, i, cur);
      (if st.emitted == [] then [] else [i]) + OriginsFrom(lines, timeline, st.next, st.section)
  }

  /** The lines the records of a parse are read at, in the order they are appended. */
  ghost function Origins(lines: seq<string>, timeline: map<string, int>): seq<nat>
  {
    OriginsFrom(lines, timeline, 0, None)
  }

  /** The records a pass emits are read at the line under the cursor. */
  lemma StepAtReads(lines: seq<string>, timeline: map<string, int>, i: nat, cur: Option<Section>)
    requires i < |lines|
    ensures StepAt(lines, timeline, i, cur).emitted != [] ==> ReadAt(lines, i, StepAt(lines, timeline, i, cur).emitted[0])
  {
  }

  /** One unfolding of OriginsFrom at a known step. */
  lemma OriginsFromStep(lines: seq<string>, timeline: map<string, int>, i: nat, cur: Option<Section>, st: Step)
    requires i < |lines| && StepAt(lines, timeline, i, cur) == st
    ensures st.next <= |lines|
    ensures OriginsFrom(lines, timeline, i, cur)
         == (if st.emitted == [] then [] else [i]) + OriginsFrom(lines, timeline, st.next, st.section)
  {
  }

  /** Positions in strictly increasing order, each in `[lo, hi)`, the k-th
      related by `read` to the k-th item. */
  ghost predicate InOrder<T>(lo: int, hi: int, idx: seq<nat>, items: seq<T>, read: (nat, T) -> bool)
  {
    && |idx| == |items|
    && (forall k :: 0 <= k < |idx| ==> lo <= idx[k] < hi && read(idx[k], items[k]))
    && (forall k, l :: 0 <= k < l < |idx| ==> idx[k] < idx[l])
  }

  /** Putting the item of position `i`, if any, before items of later positions. */
  lemma InOrderCons<T>(i: int, hi: int, head: seq<nat>, emitted: seq<T>, rest: seq<nat>, later: seq<T>,
                       read: (nat, T) -> bool)
    requires i < hi
    requires |head| == |emitted| <= 1 && (head != [] ==> head[0] == i && read(i, emitted[0]))
    requires InOrder(i + 1, hi, rest, later, read)
    ensures InOrder(i, hi, head + rest, emitted + later, read)
  {
    if head == [] {
      assert head + rest == rest && emitted + later == later;
    } else {
      InOrderPrepend(i, hi, emitted[0], rest, later, read);
      assert head == [i] && emitted == [emitted[0]];
    }
  }

  lemma InOrderPrepend<T>(i: int, hi: int, e: T, rest: seq<nat>, later: seq<T>, read: (nat, T) -> bool)
    requires i < hi && 0 <= i && read(i, e)
    requires InOrder(i + 1, hi, rest, later, read)
    ensures InOrder(i, hi, [i] + rest, [e] + later, read)
  {
    var idx, items := [i] + rest, [e] + later;
    assert idx[0] == i && items[0] == e;
    forall k | 0 < k < |idx| ensures idx[k] == rest[k - 1] && items[k] == later[k - 1] {
    }
    forall k | 0 <= k < |idx| ensures i <= idx[k] < hi && read(idx[k], items[k]) {
      if k > 0 {
        assert idx[k] == rest[k - 1] && items[k] == later[k - 1];
      }
    }
    forall k, l | 0 <= k < l < |idx| ensures idx[k] < idx[l] {
      assert idx[l] == rest[l - 1];
      if k > 0 {
        assert idx[k] == rest[k - 1];
      }
    }
  }

  /** ReadAt as a relation on positions and records. */
  ghost function ReadIn(lines: seq<string>): (nat, BannerRecord) -> bool
  {
    (j: nat, r: BannerRecord) => j < |lines| && ReadAt(lines, j, r)
  }

  lemma {:induction false} OriginsFromFacts(lines: seq<string>, timeline: map<string, int>, i: nat, cur: Option<Section>)
    requires i <= |lines|
    ensures InOrder(i, |lines|, OriginsFrom(lines, timeline, i, cur), ParseFrom(lines, timeline, i, cur), ReadIn(lines))
    decreases |lines| - i
  {
    if i < |lines| {
      var st := StepAt(lines, timeline, i, cur);
      ParseFromStep(lines, timeline, i, cur, st);
      OriginsFromStep(lines, timeline, i, cur, st);
      StepAtReads(lines, timeline, i, cur);
      OriginsFromFacts(lines, timeline, st.next, st.section);
      InOrderCons(i, |lines|, if st.emitted == [] then [] else [i], st.emitted,
        OriginsFrom(lines, timeline, st.next, st.section), ParseFrom(lines, timeline, st.next, st.section),
        ReadIn(lines));
    }
  }

  /** Records are appended in the order of the lines they are read at: the
      k-th record's count and name come from the k-th of a strictly
      increasing sequence of line numbers, one per record. */
  lemma RecordsInLineOrder(lines: seq<string>, timeline: map<string, int>)
    ensures |Origins(lines, timeline)| == |Parse(lines, timeline)|
    ensures forall k :: 0 <= k < |Origins(lines, timeline)| ==>
      Origins(lines, timeline)[k] < |lines| && ReadAt(lines, Origins(lines, timeline)[k], Parse(lines, timeline)[k])
    ensures forall k, l :: 0 <= k < l < |Origins(lines, timeline)| ==> Origins(lines, timeline)[k] < Origins(lines, timeline)[l]
  {
    OriginsFromFacts(lines, timeline, 0, None);
  }

  // ----- Worked examples on report fragments -----

  /** Version 5.2 starts 36 versions, i.e. 1512 days, after launch. */
  lemma TimelineAtFiveTwo()
    ensures "5.2" in VersionTimeline.Timeline() && VersionTimeline.Timeline()["5.2"] == 1512
  {
    VersionTimeline.TimelineFacts();
    VersionTimeline.LabelOfDigits(5, 2);
    assert VersionTimeline.Label(VersionTimeline.Version(5, 2)) == "5.2";
    assert VersionTimeline.Visited(VersionTimeline.Version(5, 2));
  }

  lemma SectionFiveTwo(phase: char)
    requires IsPhaseLetter(phase)
    ensures MatchHeader(['5', '.', '2', ' ', phase]) == Some(Section("5.2", PhaseOf(phase)))
    ensures MajorOf("5.2") == 5
  {
    var line := ['5', '.', '2', ' ', phase];
    assert SpanDigits(line, 0) == 1;
    assert SpanDigits(line, 2) == 3;
    assert SpanSpaces(line, 3) == 4;
    assert line[..3] == "5.2";
    assert SpanDigits("5.2", 0) == 1;
    assert "5.2"[..1] == "5";
  }

  lemma HeaderLineAFacts()
    ensures MatchHeader("5.2 A") == Some(Section("5.2", A)) && MajorOf("5.2") == 5
  {
    SectionFiveTwo('A');
    assert "5.2 A" == ['5', '.', '2', ' ', 'A'];
  }

  lemma CountOneOhNine()
    ensures IsGroupedCount("109,105") && CountValue("109,105") == 109105
  {
    ThreeDigits('1', '0', '9');
    ThreeDigits('1', '0', '5');
    SmallCount("109");
    GroupedCountSnoc("109", "105");
    assert "109" + [','] + "105" == "109,105";
  }

  lemma CountLineFacts()
    ensures MatchHeader("109,105") == None && MatchMixed("109,105") == None
    ensures MatchCountLine("109,105") == Some(109105)
  {
    var line := "109,105";
    CountOneOhNine();
    assert SpanDigits(line, 0) == 3 && line[3] == ',';
    assert SpanNonSpaces(line, 0) == 7 && line[..7] == line && line[7..] == [];
  }

  lemma NameLineFacts()
    ensures MatchNameLine("Chasca Summoned") == Some("Chasca")
  {
    var line := "Chasca Summoned";
    assert line[7..] == Marker && line[..6] == "Chasca";
  }

  lemma WinRateLineFacts()
    ensures MatchNameLine("54.23% won") == None
    ensures MatchHeader("54.23% won") == None && MatchMixed("54.23% won") == None
    ensures MatchCountLine("54.23% won") == None
  {
    var line := "54.23% won";
    assert line[2..] != Marker;
    assert SpanDigits(line, 0) == 2 && line[2] == '.';
    assert SpanDigits(line, 3) == 5 && line[5] == '%';
    assert SpanNonSpaces(line, 0) == 6;
    assert line[..6][5] == '%';
    assert !IsGroupedCount(line[..6]);
  }

  lemma CountThirteen()
    ensures IsGroupedCount("13,980") && CountValue("13,980") == 13980
  {
    TwoDigits('1', '3');
    ThreeDigits('9', '8', '0');
    SmallCount("13");
    GroupedCountSnoc("13", "980");
    assert "13" + [','] + "980" == "13,980";
  }

  lemma MixedLineNotHeader()
    ensures MatchHeader("13,980 Kaedehara Kazuha Summoned") == None
  {
    var line := "13,980 Kaedehara Kazuha Summoned";
    assert SpanDigits(line, 0) == 2 && line[2] == ',';
  }

  lemma MixedLineTokens()
    ensures SpanNonSpaces("13,980 Kaedehara Kazuha Summoned", 0) == 6
    ensures SpanSpaces("13,980 Kaedehara Kazuha Summoned", 6) == 7
  {
    var line := "13,980 Kaedehara Kazuha Summoned";
    assert !IsSpace(line[0]) && !IsSpace(line[1]) && !IsSpace(line[2]);
    assert !IsSpace(line[3]) && !IsSpace(line[4]) && !IsSpace(line[5]);
    assert IsSpace(line[6]) && !IsSpace(line[7]);
  }

  lemma MixedLineSlices()
    ensures "13,980 Kaedehara Kazuha Summoned"[..6] == "13,980"
    ensures "13,980 Kaedehara Kazuha Summoned"[32 - 8..] == Marker
    ensures "13,980 Kaedehara Kazuha Summoned"[32 - 9] == ' '
  {
  }

  lemma MixedLineName()
    ensures "13,980 Kaedehara Kazuha Summoned"[7..32 - 9] == "Kaedehara Kazuha"
  {
    assert "13,980 Kaedehara Kazuha Summoned" == "13,980 " + "Kaedehara Kazuha" + " Summoned";
    MiddleOfConcat("13,980 ", "Kaedehara Kazuha", " Summoned");
  }

  /** A section header for phase C of version 5.2. */
  const HeaderLineC: string := "5.2 C"

  lemma HeaderLineCFacts()
    ensures MatchHeader(HeaderLineC) == Some(Section("5.2", C))
  {
    SectionFiveTwo('C');
    assert HeaderLineC == ['5', '.', '2', ' ', 'C'];
  }

  /** A one-line record whose name has two words. */
  const KazuhaLine: string := "13,980 Kaedehara Kazuha Summoned"

  /** The matcher keeps the space inside the name: the name group runs
      from the first character after the count's whitespace to the last
      whitespace before the marker. */
  lemma MixedLineFacts()
    ensures MatchHeader(KazuhaLine) == None
    ensures MatchMixed(KazuhaLine) == Some((13980, "Kaedehara Kazuha"))
  {
    MixedLineNotHeader();
    CountThirteen();
    MixedLineTokens();
    MixedLineSlices();
    MixedLineName();
  }

  /** A header line, a count line and a character line parse to one record. */
  lemma HeaderThenTwoLine(lines: seq<string>, timeline: map<string, int>, sec: Section, count: nat, name: string)
    requires |lines| == 3 && MatchHeader(lines[0]) == Some(sec)
    requires MatchHeader(lines[1]) == None && MatchMixed(lines[1]) == None && MatchCountLine(lines[1]) == Some(count)
    requires lines[2] != "" && MatchNameLine(lines[2]) == Some(name)
    ensures ParseFrom(lines, timeline, 0, None) == [NewRecord(timeline, sec, name, count)]
  {
    assert lines[0] != "" by { assert MatchHeader("") == None; }
    assert NextNonBlank(lines, 2) == 2;
    CountThenNameStep(lines, timeline, 1, sec, count, name);
    var rec := NewRecord(timeline, sec, name, count);
    ParseFromStep(lines, timeline, 0, None, Step(1, Some(sec), []));
    ParseFromStep(lines, timeline, 1, Some(sec), Step(3, Some(sec), [rec]));
  }

  /** A count line and the character line after it make one record. */
  lemma TwoLineExample()
    ensures Parse(["5.2 A", "109,105", "Chasca Summoned"], VersionTimeline.Timeline())
         == [BannerRecord("5.2", A, "Chasca", 109105, 1512, 5, None, 0)]
  {
    var tl := VersionTimeline.Timeline();
    var lines := ["5.2 A", "109,105", "Chasca Summoned"];
    assert Parse(lines, tl) == [NewRecord(tl, Section("5.2", A), "Chasca", 109105)] by {
      HeaderLineAFacts();
      CountLineFacts();
      NameLineFacts();
      HeaderThenTwoLine(lines, tl, Section("5.2", A), 109105, "Chasca");
    }
    RecordAtFiveTwo(A, "Chasca", 109105);
  }

  /** A header, a count line, a blank line and a line of no known shape
      parse to nothing. */
  lemma HeaderThenUnmatched(lines: seq<string>, timeline: map<string, int>, sec: Section)
    requires |lines| == 4 && MatchHeader(lines[0]) == Some(sec)
    requires MatchHeader(lines[1]) == None && MatchMixed(lines[1]) == None && MatchCountLine(lines[1]).Some?
    requires lines[2] == ""
    requires lines[3] != "" && MatchHeader(lines[3]) == None && MatchMixed(lines[3]) == None
    requires MatchCountLine(lines[3]) == None && MatchNameLine(lines[3]) == None
    ensures ParseFrom(lines, timeline, 0, None) == []
  {
    assert lines[0] != "" && lines[1] != "" by { assert MatchHeader("") == None && MatchCountLine("") == None; }
    assert NextNonBlank(lines, 2) == 3;
    ParseFromStep(lines, timeline, 0, None, Step(1, Some(sec), []));
    ParseFromStep(lines, timeline, 1, Some(sec), Step(2, Some(sec), []));
    ParseFromStep(lines, timeline, 2, Some(sec), Step(3, Some(sec), []));
    ParseFromStep(lines, timeline, 3, Some(sec), Step(4, Some(sec), []));
  }

  /** A count line followed by a win-rate line yields nothing. */
  lemma UnmatchedLookAheadExample()
    ensures Parse(["5.2 A", "109,105", "", "54.23% won"], VersionTimeline.Timeline()) == []
  {
    HeaderLineAFacts();
    CountLineFacts();
    WinRateLineFacts();
    HeaderThenUnmatched(["5.2 A", "109,105", "", "54.23% won"], VersionTimeline.Timeline(), Section("5.2", A));
  }

  /** A record under version 5.2 starts on day 1512, 21 days later in phase B. */
  lemma RecordAtFiveTwo(phase: Phase, name: string, count: nat)
    ensures NewRecord(VersionTimeline.Timeline(), Section("5.2", phase), name, count)
         == BannerRecord("5.2", phase, name, count, 1512 + PhaseOffset(phase), 5, None, 0)
  {
    TimelineAtFiveTwo();
    HeaderLineAFacts();
  }

  /** A header line followed by a one-line record parses to that record. */
  lemma HeaderThenMixed(lines: seq<string>, timeline: map<string, int>, sec: Section, count: nat, name: string)
    requires |lines| == 2 && MatchHeader(lines[0]) == Some(sec)
    requires MatchHeader(lines[1]) == None && MatchMixed(lines[1]) == Some((count, name))
    ensures ParseFrom(lines, timeline, 0, None) == [NewRecord(timeline, sec, name, count)]
  {
    assert lines[0] != "" && lines[1] != "" by { assert MatchMixed("") == None; }
    var rec := NewRecord(timeline, sec, name, count);
    ParseFromStep(lines, timeline, 0, None, Step(1, Some(sec), []));
    ParseFromStep(lines, timeline, 1, Some(sec), Step(2, Some(sec), [rec]));
  }

  /** A one-line record in phase C whose name has two words: the whole
      name is kept, and phase C adds no days to the version's offset. */
  lemma MixedLineExample()
    ensures Parse([HeaderLineC, KazuhaLine], VersionTimeline.Timeline())
         == [BannerRecord("5.2", C, "Kaedehara Kazuha", 13980, 1512, 5, None, 0)]
  {
    var tl := VersionTimeline.Timeline();
    var lines := [HeaderLineC, KazuhaLine];
    assert Parse(lines, tl) == [NewRecord(tl, Section("5.2", C), "Kaedehara Kazuha", 13980)] by {
      HeaderLineCFacts();
      MixedLineFacts();
      HeaderThenMixed(lines, tl, Section("5.2", C), 13980, "Kaedehara Kazuha");
    }
    RecordAtFiveTwo(C, "Kaedehara Kazuha", 13980);
  }
}
