/** The rerun calculator: sorts the records by days since launch and walks
    them once, numbering each character's appearances and measuring the gap
    since the end of that character's previous banner. */
module RerunCalculator {
  import opened Records

  /** A banner phase runs this many days: the previous banner of a
      character ends 21 days after it started. */
  const PhaseLength: int := 21

  predicate SortedByDays(s: seq<BannerRecord>)
  {
    forall i, j :: 0 <= i < j < |s| ==> s[i].daysSinceLaunch <= s[j].daysSinceLaunch
  }

  // ----- Sorting by days since launch -----

  /** Inserts `r` after every record whose day is not later than its own. */
  function InsertByDays(r: BannerRecord, s: seq<BannerRecord>): (t: seq<BannerRecord>)
    requires SortedByDays(s)
    ensures SortedByDays(t)
    ensures multiset(t) == multiset(s) + multiset{r}
    ensures |t| == |s| + 1
  {
    if s == [] then [r]
    else if s[|s| - 1].daysSinceLaunch <= r.daysSinceLaunch then s + [r]
    else
      var front, last := s[..|s| - 1], s[|s| - 1];
      assert s == front + [last];
      var t := InsertByDays(r, front);
      assert forall i :: 0 <= i < |t| ==> t[i].daysSinceLaunch <= last.daysSinceLaunch by {
        forall i | 0 <= i < |t| ensures t[i].daysSinceLaunch <= last.daysSinceLaunch {
          assert t[i] in multiset(front) + multiset{r} by { assert t[i] in multiset(t); }
          if t[i] != r {
            assert t[i] in front;
          }
        }
      }
      assert multiset(t + [last]) == multiset(t) + multiset{last};
      t + [last]
  }

  /** `sort_values('DaysSinceLaunch')`, as a stable insertion sort. */
  function SortByDays(s: seq<BannerRecord>): (t: seq<BannerRecord>)
    ensures SortedByDays(t)
    ensures multiset(t) == multiset(s)
    ensures |t| == |s|
  {
    if s == [] then []
    else
      assert s == s[..|s| - 1] + [s[|s| - 1]];
      InsertByDays(s[|s| - 1], SortByDays(s[..|s| - 1]))
  }

  /** Sorting a sorted table changes nothing. */
  lemma {:induction false} SortSortedIsIdentity(s: seq<BannerRecord>)
    requires SortedByDays(s)
    ensures SortByDays(s) == s
  {
    if s != [] {
      var front := s[..|s| - 1];
      assert SortedByDays(front);
      SortSortedIsIdentity(front);
    }
  }

  // ----- The specification of the walk -----

  /** How many records of `s` are appearances of character `c`. */
  function Appearances(s: seq<BannerRecord>, c: string): nat
  {
    if s == [] then 0
    else Appearances(s[..|s| - 1], c) + (if s[|s| - 1].character == c then 1 else 0)
  }

  /** The day of the last appearance of `c` in `s`. */
  function LastDay(s: seq<BannerRecord>, c: string): int
    requires Appearances(s, c) > 0
  {
    if s[|s| - 1].character == c then s[|s| - 1].daysSinceLaunch else LastDay(s[..|s| - 1], c)
  }

  /** An interval below zero (overlapping banners) is reported as 0. */
  function ClampToZero(x: int): (y: int)
    ensures y >= 0 && (x >= 0 ==> y == x) && (x < 0 ==> y == 0)
  {
    if x < 0 then 0 else x
  }

  /** Row `r` with its rerun columns filled in, given the rows `before` it. */
  function WithReruns(r: BannerRecord, before: seq<BannerRecord>): BannerRecord
  {
    var c := r.character;
    if Appearances(before, c) == 0 then r.(rerunInterval := None, rerunCount := 0)
    else r.(rerunInterval := Some(ClampToZero(r.daysSinceLaunch - (LastDay(before, c) + PhaseLength))),
            rerunCount := Appearances(before, c))
  }

  /** Every row annotated against the rows that precede it. */
  function Annotate(s: seq<BannerRecord>): (t: seq<BannerRecord>)
    ensures |t| == |s|
    ensures forall k :: 0 <= k < |s| ==> ClearReruns(t[k]) == ClearReruns(s[k])
  {
    seq(|s|, k requires 0 <= k < |s| => WithReruns(s[k], s[..k]))
  }

  /** The table with both rerun columns reset. */
  function ClearAll(s: seq<BannerRecord>): (t: seq<BannerRecord>)
    ensures |t| == |s|
    ensures forall k :: 0 <= k < |s| ==> t[k].rerunInterval == None && t[k].rerunCount == 0
  {
    seq(|s|, k requires 0 <= k < |s| => ClearReruns(s[k]))
  }

  // ----- The walk itself -----

  /** How Appearances and LastDay of `c` move when row `k` is passed. */
  lemma AppearancesStep(s: seq<BannerRecord>, k: nat, c: string)
    requires k < |s|
    ensures Appearances(s[..k + 1], c) == Appearances(s[..k], c) + (if s[k].character == c then 1 else 0)
    ensures s[k].character == c ==> LastDay(s[..k + 1], c) == s[k].daysSinceLaunch
    ensures s[k].character != c && Appearances(s[..k], c) > 0 ==> LastDay(s[..k + 1], c) == LastDay(s[..k], c)
  {
    assert s[..k + 1][..k] == s[..k];
  }

  /** The two dictionaries of the walk after the rows `seen`: a character
      is a key exactly when it has appeared, mapped to the day of its last
      appearance and to the number of its appearances. */
  ghost predicate Tracks(seen: seq<BannerRecord>, lastAppearance: map<string, int>, appearCounts: map<string, nat>)
  {
    && (forall c :: c in lastAppearance <==> Appearances(seen, c) > 0)
    && (forall c :: c in appearCounts <==> c in lastAppearance)
    && (forall c :: c in lastAppearance ==>
          lastAppearance[c] == LastDay(seen, c) && appearCounts[c] == Appearances(seen, c))
  }

  /** Passing row `k` records its day and bumps its character's count. */
  lemma TracksStep(s: seq<BannerRecord>, k: nat, lastAppearance: map<string, int>, appearCounts: map<string, nat>)
    requires k < |s| && Tracks(s[..k], lastAppearance, appearCounts)
    ensures var c := s[k].character;
      Tracks(s[..k + 1], lastAppearance[c := s[k].daysSinceLaunch],
             appearCounts[c := if c in appearCounts then appearCounts[c] + 1 else 1])
  {
    forall c {
      AppearancesStep(s, k, c);
    }
  }

  method ComputeReruns(records: seq<BannerRecord>) returns (rows: seq<BannerRecord>)
    ensures rows == Annotate(SortByDays(records))
  {
    var sorted := SortByDays(records);
    rows := ClearAll(sorted);
    var lastAppearance: map<string, int> := map[];
    var appearCounts: map<string, nat> := map[];
    for k := 0 to |rows|
      invariant |rows| == |sorted|
      invariant forall m :: 0 <= m < k ==> rows[m] == WithReruns(sorted[m], sorted[..m])
      invariant forall m :: k <= m < |rows| ==> rows[m] == ClearReruns(sorted[m])
      invariant Tracks(sorted[..k], lastAppearance, appearCounts)
    {
      var filled;
      filled, lastAppearance, appearCounts := AnnotateRow(sorted, k, rows[k], lastAppearance, appearCounts);
      rows := rows[k := filled];
    }
    assert rows == Annotate(sorted);
  }

  /** The body of the walk for row `k` of the sorted table: the row with
      its rerun columns filled in from the two dictionaries, which then
      record this appearance. */
  method AnnotateRow(ghost sorted: seq<BannerRecord>, ghost k: nat, row: BannerRecord,
                     lastAppearance: map<string, int>, appearCounts: map<string, nat>)
    returns (filled: BannerRecord, lastAppearance': map<string, int>, appearCounts': map<string, nat>)
    requires k < |sorted| && row == ClearReruns(sorted[k])
    requires Tracks(sorted[..k], lastAppearance, appearCounts)
    ensures filled == WithReruns(sorted[k], sorted[..k])
    ensures Tracks(sorted[..k + 1], lastAppearance', appearCounts')
  {
    var character := row.character;
    var currentDays := row.daysSinceLaunch;
    TracksStep(sorted, k, lastAppearance, appearCounts);
    if character in lastAppearance {
      RepeatRow(sorted, k, lastAppearance, appearCounts);
      var prevDays := lastAppearance[character];
      var interval := currentDays - (prevDays + PhaseLength);
      if interval < 0 {
        interval := 0;
      }
      appearCounts' := appearCounts[character := appearCounts[character] + 1];
      filled := row.(rerunInterval := Some(interval), rerunCount := appearCounts'[character] - 1);
      lastAppearance' := lastAppearance[character := currentDays];
    } else {
      FirstRow(sorted, k, lastAppearance, appearCounts);
      lastAppearance' := lastAppearance[character := currentDays];
      appearCounts' := appearCounts[character := 1];
      filled := row.(rerunCount := 0);
    }
  }

  /** Row `k` of a character the dictionaries already hold: the count is
      the stored count and the interval is measured from the stored day. */
  lemma RepeatRow(s: seq<BannerRecord>, k: nat, lastAppearance: map<string, int>, appearCounts: map<string, nat>)
    requires k < |s| && Tracks(s[..k], lastAppearance, appearCounts) && s[k].character in lastAppearance
    ensures var c := s[k].character;
      && c in appearCounts
      && WithReruns(s[k], s[..k]) == ClearReruns(s[k]).(
           rerunInterval := Some(ClampToZero(s[k].daysSinceLaunch - (lastAppearance[c] + PhaseLength))),
           rerunCount := appearCounts[c])
  {
  }

  /** Row `k` of a character the dictionaries do not hold yet. */
  lemma FirstRow(s: seq<BannerRecord>, k: nat, lastAppearance: map<string, int>, appearCounts: map<string, nat>)
    requires k < |s| && Tracks(s[..k], lastAppearance, appearCounts) && s[k].character !in lastAppearance
    ensures WithReruns(s[k], s[..k]) == ClearReruns(s[k])
  {
  }

  // ----- What the walk promises -----

  /** `c` appears in `s` exactly when some record of `s` is one of its. */
  lemma {:induction false} AppearancesZero(s: seq<BannerRecord>, c: string)
    ensures Appearances(s, c) == 0 <==> forall m :: 0 <= m < |s| ==> s[m].character != c
  {
    if s != [] {
      var front := s[..|s| - 1];
      AppearancesZero(front, c);
      assert forall m :: 0 <= m < |front| ==> front[m] == s[m];
    }
  }

  /** A row is a first appearance (count 0, no interval) exactly when no
      earlier row has the same character. */
  lemma FirstAppearance(s: seq<BannerRecord>, k: nat)
    requires k < |s|
    ensures Annotate(s)[k].rerunCount == 0 <==> (forall m :: 0 <= m < k ==> s[m].character != s[k].character)
    ensures Annotate(s)[k].rerunInterval == None <==> (forall m :: 0 <= m < k ==> s[m].character != s[k].character)
  {
    AppearancesZero(s[..k], s[k].character);
    assert forall m :: 0 <= m < k ==> s[..k][m] == s[m];
  }

  /** Appearances and last day of `c` do not change over rows of other
      characters. */
  lemma {:induction false} NoAppearanceBetween(s: seq<BannerRecord>, c: string, i: nat, j: nat)
    requires i < j <= |s| && s[i].character == c
    requires forall m :: i < m < j ==> s[m].character != c
    ensures Appearances(s[..j], c) == Appearances(s[..i], c) + 1
    ensures Appearances(s[..j], c) > 0 && LastDay(s[..j], c) == s[i].daysSinceLaunch
    decreases j - i
  {
    assert s[..j][..j - 1] == s[..j - 1];
    if j == i + 1 {
    } else {
      NoAppearanceBetween(s, c, i, j - 1);
    }
  }

  /** Two consecutive appearances of a character: the later one's count is
      one more than the earlier one's, and its interval is the gap between
      the end of the earlier banner (21 days after its start) and its own
      start, or 0 when they overlap. */
  lemma RepeatAppearance(s: seq<BannerRecord>, i: nat, k: nat)
    requires i < k < |s| && s[i].character == s[k].character
    requires forall m :: i < m < k ==> s[m].character != s[k].character
    ensures Annotate(s)[k].rerunCount == Annotate(s)[i].rerunCount + 1
    ensures Annotate(s)[k].rerunInterval
         == Some(ClampToZero(s[k].daysSinceLaunch - (s[i].daysSinceLaunch + PhaseLength)))
  {
    NoAppearanceBetween(s, s[k].character, i, k);
  }

  /** The counts of one character are 0, 1, 2, ... in order of appearance:
      the count of a row is the number of earlier rows of the same
      character. */
  lemma {:induction false} RerunCountIsEarlierAppearances(s: seq<BannerRecord>, k: nat)
    requires k < |s|
    ensures Annotate(s)[k].rerunCount == |set m | 0 <= m < k && s[m].character == s[k].character|
  {
    AppearancesAsSet(s[..k], s[k].character);
    assert (set m | 0 <= m < k && s[..k][m].character == s[k].character)
        == (set m | 0 <= m < k && s[m].character == s[k].character);
  }

  lemma {:induction false} AppearancesAsSet(s: seq<BannerRecord>, c: string)
    ensures Appearances(s, c) == |set m | 0 <= m < |s| && s[m].character == c|
  {
    if s != [] {
      var front := s[..|s| - 1];
      AppearancesAsSet(front, c);
      var a := set m | 0 <= m < |front| && front[m].character == c;
      var b := set m | 0 <= m < |s| && s[m].character == c;
      if s[|s| - 1].character == c {
        assert b == a + {|s| - 1};
      } else {
        assert b == a;
      }
    }
  }

  // ----- The table as a whole -----

  /** Two tables that agree on characters and days. */
  predicate SameKeys(a: seq<BannerRecord>, b: seq<BannerRecord>)
  {
    |a| == |b| && forall i :: 0 <= i < |a| ==>
      a[i].character == b[i].character && a[i].daysSinceLaunch == b[i].daysSinceLaunch
  }

  lemma {:induction false} SameKeysSameAppearances(a: seq<BannerRecord>, b: seq<BannerRecord>, c: string)
    requires SameKeys(a, b)
    ensures Appearances(a, c) == Appearances(b, c)
    ensures Appearances(a, c) > 0 ==> LastDay(a, c) == LastDay(b, c)
  {
    if a != [] {
      SameKeysSameAppearances(a[..|a| - 1], b[..|b| - 1], c);
    }
  }

  /** Annotating row `k` of an annotated table gives what annotating the
      original row gave: the rows before it agree on characters and days. */
  lemma AnnotateRowStable(s: seq<BannerRecord>, k: nat)
    requires k < |s|
    ensures WithReruns(Annotate(s)[k], Annotate(s)[..k]) == Annotate(s)[k]
  {
    var t := Annotate(s);
    assert ClearReruns(t[k]) == ClearReruns(s[k]);
    assert SameKeys(t[..k], s[..k]) by {
      forall i | 0 <= i < k ensures t[i].character == s[i].character && t[i].daysSinceLaunch == s[i].daysSinceLaunch {
        assert ClearReruns(t[i]) == ClearReruns(s[i]);
      }
    }
    SameKeysSameAppearances(t[..k], s[..k], s[k].character);
  }

  /** The walk only reads characters and days, and sets both rerun columns
      on every row: annotating twice is annotating once. */
  lemma AnnotateIdempotent(s: seq<BannerRecord>)
    ensures Annotate(Annotate(s)) == Annotate(s)
  {
    var t := Annotate(s);
    forall k | 0 <= k < |t| ensures Annotate(t)[k] == t[k] {
      AnnotateRowStable(s, k);
    }
  }

  lemma ClearAllSnoc(s: seq<BannerRecord>, r: BannerRecord)
    ensures ClearAll(s + [r]) == ClearAll(s) + [ClearReruns(r)]
  {
    var a, b := ClearAll(s + [r]), ClearAll(s) + [ClearReruns(r)];
    assert |a| == |b|;
    forall i | 0 <= i < |a| ensures a[i] == b[i] {
      if i < |s| {
        assert (s + [r])[i] == s[i];
      }
    }
  }

  lemma {:induction false} ClearInsert(r: BannerRecord, s: seq<BannerRecord>)
    requires SortedByDays(s)
    ensures multiset(ClearAll(InsertByDays(r, s))) == multiset(ClearAll(s)) + multiset{ClearReruns(r)}
  {
    if s == [] {
    } else if s[|s| - 1].daysSinceLaunch <= r.daysSinceLaunch {
      ClearAllSnoc(s, r);
    } else {
      var front, last := s[..|s| - 1], s[|s| - 1];
      assert s == front + [last];
      ClearInsert(r, front);
      ClearAllSnoc(InsertByDays(r, front), last);
      ClearAllSnoc(front, last);
    }
  }

  /** Clearing a table keeps its last row, cleared, in the multiset. */
  lemma ClearAllMultisetLast(s: seq<BannerRecord>)
    requires s != []
    ensures multiset(ClearAll(s)) == multiset(ClearAll(s[..|s| - 1])) + multiset{ClearReruns(s[|s| - 1])}
  {
    assert s == s[..|s| - 1] + [s[|s| - 1]];
    ClearAllSnoc(s[..|s| - 1], s[|s| - 1]);
  }

  lemma SortByDaysSnoc(s: seq<BannerRecord>)
    requires s != []
    ensures SortedByDays(SortByDays(s[..|s| - 1]))
    ensures SortByDays(s) == InsertByDays(s[|s| - 1], SortByDays(s[..|s| - 1]))
  {
  }

  lemma {:induction false} ClearSort(s: seq<BannerRecord>)
    ensures multiset(ClearAll(SortByDays(s))) == multiset(ClearAll(s))
  {
    if s != [] {
      var front, last := s[..|s| - 1], s[|s| - 1];
      SortByDaysSnoc(s);
      ClearSort(front);
      ClearInsert(last, SortByDays(front));
      ClearAllMultisetLast(s);
    }
  }

  /** The result holds the same records as the input, up to the two rerun
      columns, in order of days since launch; running the calculator again
      on its own result changes nothing. */
  lemma ComputeRerunsTable(records: seq<BannerRecord>)
    ensures SortedByDays(Annotate(SortByDays(records)))
    ensures multiset(ClearAll(Annotate(SortByDays(records)))) == multiset(ClearAll(records))
    ensures Annotate(SortByDays(Annotate(SortByDays(records)))) == Annotate(SortByDays(records))
  {
    var sorted := SortByDays(records);
    var rows := Annotate(sorted);
    assert forall k :: 0 <= k < |rows| ==> rows[k].daysSinceLaunch == ClearReruns(rows[k]).daysSinceLaunch;
    assert ClearAll(rows) == ClearAll(sorted);
    ClearSort(records);
    SortSortedIsIdentity(rows);
    AnnotateIdempotent(sorted);
  }

  // ----- A worked example -----

  function Row(character: string, days: int): BannerRecord
  {
    BannerRecord("", A, character, 0, days, 0, None, 0)
  }

  /** One character on days 10, 80 and 150: counts 0, 1, 2 and intervals
      none, 49 (80 - (10 + 21)) and 49 (150 - (80 + 21)). */
  lemma RerunExample()
    ensures var t := Annotate([Row("Furina", 10), Row("Furina", 80), Row("Furina", 150)]);
      && t[0].rerunCount == 0 && t[0].rerunInterval == None
      && t[1].rerunCount == 1 && t[1].rerunInterval == Some(49)
      && t[2].rerunCount == 2 && t[2].rerunInterval == Some(49)
  {
    var s := [Row("Furina", 10), Row("Furina", 80), Row("Furina", 150)];
    FirstAppearance(s, 0);
    RepeatAppearance(s, 0, 1);
    RepeatAppearance(s, 1, 2);
  }

  /** Three banners of one character around a banner of another one; the
      third starts before the second has ended: counts 0, 1, 2 and
      intervals none, 49 (80 - (10 + 21)) and 0 (90 - (80 + 21) < 0). */
  lemma OverlapExample()
    ensures var t := Annotate([Row("Furina", 10), Row("Nahida", 70), Row("Furina", 80), Row("Furina", 90)]);
      && t[0].rerunCount == 0 && t[0].rerunInterval == None
      && t[1].rerunCount == 0 && t[1].rerunInterval == None
      && t[2].rerunCount == 1 && t[2].rerunInterval == Some(49)
      && t[3].rerunCount == 2 && t[3].rerunInterval == Some(0)
  {
    var s := [Row("Furina", 10), Row("Nahida", 70), Row("Furina", 80), Row("Furina", 90)];
    assert "Furina" != "Nahida";
    FirstAppearance(s, 0);
    FirstAppearance(s, 1);
    RepeatAppearance(s, 0, 2);
    RepeatAppearance(s, 2, 3);
  }
}
