/** The version calendar: walking the game's version labels from 1.0 up to,
    but not including, 7.0, 42 days per version, and the table from label
    to days since launch that the report parser looks dates up in. */
module VersionTimeline {
  import opened Text

  datatype Version = Version(major: nat, minor: nat)

  /** The last minor version of each known major version. */
  const MaxMinors: map<int, int> := map[1 := 6, 2 := 8, 3 := 8, 4 := 8, 5 := 8, 6 := 8]
  /** The last minor version of a major version not in `MaxMinors`. */
  const DefaultMaxMinor: int := 8
  /** Length of one version, in days. */
  const DaysPerVersion: nat := 42
  /** The walk stops on reaching this major version. */
  const StopMajor: nat := 7
  /** The walk starts at version 1.0. */
  const FirstMajor: nat := 1
  const FirstMinor: nat := 0
  /** Number of versions the walk visits. */
  const VersionCount: nat := 52

  /** `max_minors.get(major, 8)`. */
  function MaxMinor(major: int): (m: int)
    ensures m == (if major == 1 then 6 else 8)
  {
    if major in MaxMinors then MaxMinors[major] else DefaultMaxMinor
  }

  /** Strict lexicographic order on (major, minor). */
  predicate Before(a: (int, int), b: (int, int))
  {
    a.0 < b.0 || (a.0 == b.0 && a.1 < b.1)
  }

  /** The version released after `major.minor`. */
  function NextVersion(major: int, minor: int): (next: (int, int))
    ensures next == (major + 1, 0) <==> minor >= (if major == 1 then 6 else 8)
    ensures next == (major, minor + 1) <==> minor < (if major == 1 then 6 else 8)
    ensures Before((major, minor), next)
  {
    if minor >= MaxMinor(major) then (major + 1, 0) else (major, minor + 1)
  }

  /** The label `f"{major}.{minor}"`. */
  function Label(v: Version): string
  {
    NatToString(v.major) + "." + NatToString(v.minor)
  }

  /** Distinct versions have distinct labels. */
  lemma LabelInjective(a: Version, b: Version)
    requires Label(a) == Label(b)
    ensures a == b
  {
    var sa, sb := NatToString(a.major), NatToString(b.major);
    var ta, tb := NatToString(a.minor), NatToString(b.minor);
    var l := Label(a);
    assert l[|sa|] == '.' && l[|sb|] == '.';
    assert forall i :: 0 <= i < |sa| ==> IsDigit(l[i]);
    assert forall i :: 0 <= i < |sb| ==> IsDigit(l[i]);
    assert sa == l[..|sa|] == sb;
    assert ta == l[|sa| + 1..] == tb;
    NatToStringInjective(a.major, b.major);
    NatToStringInjective(a.minor, b.minor);
  }

  /** The versions the walk visits from cursor `major.minor` on, in order. */
  function ScheduleFrom(major: nat, minor: nat): seq<Version>
    decreases StopMajor - major, if minor <= 8 then 8 - minor else 0
  {
    if major >= StopMajor then []
    else
      var next := NextVersion(major, minor);
      [Version(major, minor)] + ScheduleFrom(next.0, next.1)
  }

  /** The versions the walk visits, in the order the table is filled. */
  function Schedule(): seq<Version>
  {
    ScheduleFrom(FirstMajor, FirstMinor)
  }

  /** The table obtained by inserting, in order, the label of each version
      with 42 days per earlier version. */
  function TimelineOf(versions: seq<Version>): map<string, int>
  {
    if versions == [] then map[]
    else
      var k := |versions| - 1;
      TimelineOf(versions[..k])[Label(versions[k]) := DaysPerVersion * k]
  }

  /** The table `build_version_timeline()` returns. */
  function Timeline(): map<string, int>
  {
    TimelineOf(Schedule())
  }

  /** Walks the versions from 1.0 while the major version is below 7,
      recording each label's day offset. */
  method BuildVersionTimeline() returns (timeline: map<string, int>)
    ensures timeline == Timeline()
  {
    timeline := map[];
    var major: nat, minor: nat, day: nat := FirstMajor, FirstMinor, 0;
    ghost var done: seq<Version> := [];
    while major < StopMajor
      invariant done + ScheduleFrom(major, minor) == Schedule()
      invariant timeline == TimelineOf(done)
      invariant day == DaysPerVersion * |done|
      decreases StopMajor - major, if minor <= 8 then 8 - minor else 0
    {
      var v := Version(major, minor);
      var next := NextVersion(major, minor);
      timeline := timeline[Label(v) := day];
      WalkStep(done, major, minor);
      done := done + [v];
      major, minor := next.0, next.1;
      day := day + DaysPerVersion;
    }
    assert done + [] == done;
  }

  /** One turn of the walk: the visited version moves from the remaining
      schedule to the done prefix, and its label enters the table. */
  lemma WalkStep(done: seq<Version>, major: nat, minor: nat)
    requires major < StopMajor
    ensures var v, next := Version(major, minor), NextVersion(major, minor);
      && next.0 >= 0 && next.1 >= 0
      && (done + [v]) + ScheduleFrom(next.0, next.1) == done + ScheduleFrom(major, minor)
      && TimelineOf(done + [v]) == TimelineOf(done)[Label(v) := DaysPerVersion * |done|]
  {
    var v, next := Version(major, minor), NextVersion(major, minor);
    ScheduleFromUnfold(major, minor);
    ConcatAssoc(done, [v], ScheduleFrom(next.0, next.1));
    TimelineOfSnoc(done, v);
  }

  lemma ScheduleFromUnfold(major: nat, minor: nat)
    requires major < StopMajor
    ensures var next := NextVersion(major, minor);
      next.0 >= 0 && next.1 >= 0 && ScheduleFrom(major, minor) == [Version(major, minor)] + ScheduleFrom(next.0, next.1)
  {
  }

  lemma TimelineOfSnoc(vs: seq<Version>, v: Version)
    ensures TimelineOf(vs + [v]) == TimelineOf(vs)[Label(v) := DaysPerVersion * |vs|]
  {
    assert (vs + [v])[..|vs|] == vs;
  }

  // ----- What the walk visits -----

  /** A version the walk visits: major 1 to 6, minor up to that major's
      last minor version. */
  predicate Visited(v: Version)
  {
    1 <= v.major < StopMajor && v.minor <= MaxMinor(v.major)
  }

  /** Position of a visited version in the walk. */
  function Index(v: Version): nat
  {
    if v.major <= 1 then v.minor else 7 + 9 * (v.major - 2) + v.minor
  }

  lemma IndexInjective(a: Version, b: Version)
    requires Visited(a) && Visited(b) && Index(a) == Index(b)
    ensures a == b
  {
  }

  /** From a visited cursor, the walk visits the versions at positions
      Index(cursor), Index(cursor) + 1, ..., 51, and each one is followed
      by its successor. */
  lemma {:induction false} ScheduleFromShape(major: nat, minor: nat)
    requires Visited(Version(major, minor))
    decreases StopMajor - major, 8 - minor
    ensures var s := ScheduleFrom(major, minor);
      && |s| == VersionCount - Index(Version(major, minor))
      && (forall k :: 0 <= k < |s| ==> Visited(s[k]) && Index(s[k]) == Index(Version(major, minor)) + k)
      && (forall k :: 0 <= k < |s| - 1 ==> (s[k + 1].major, s[k + 1].minor) == NextVersion(s[k].major, s[k].minor))
  {
    var next := NextVersion(major, minor);
    var s := ScheduleFrom(major, minor);
    if next.0 >= StopMajor {
      assert s == [Version(major, minor)];
    } else {
      var rest := ScheduleFrom(next.0, next.1);
      assert s == [Version(major, minor)] + rest;
      ScheduleFromShape(next.0, next.1);
      assert Index(Version(next.0, next.1)) == Index(Version(major, minor)) + 1;
      assert forall k :: 1 <= k < |s| ==> s[k] == rest[k - 1];
    }
  }

  /** The walk visits exactly the 52 versions 1.0 .. 1.6, 2.0 .. 2.8, ...,
      6.0 .. 6.8, in release order, each followed by its successor; no
      visited version has a major version of 7 or more. */
  lemma ScheduleFacts()
    ensures |Schedule()| == VersionCount
    ensures forall k :: 0 <= k < VersionCount ==> Visited(Schedule()[k]) && Index(Schedule()[k]) == k
    ensures forall v :: Visited(v) ==> Index(v) < VersionCount && Schedule()[Index(v)] == v
    ensures forall k :: 0 <= k < VersionCount - 1 ==>
      (Schedule()[k + 1].major, Schedule()[k + 1].minor) == NextVersion(Schedule()[k].major, Schedule()[k].minor)
    ensures Schedule()[0] == Version(1, 0) && Schedule()[VersionCount - 1] == Version(6, 8)
  {
    ScheduleFromShape(1, 0);
    var s := Schedule();
    forall v | Visited(v) ensures Index(v) < VersionCount && s[Index(v)] == v {
      IndexInjective(s[Index(v)], v);
    }
    IndexInjective(s[VersionCount - 1], Version(6, 8));
  }

  // ----- The table -----

  predicate Distinct(vs: seq<Version>)
  {
    forall i, j :: 0 <= i < j < |vs| ==> vs[i] != vs[j]
  }

  /** Inserting distinct versions: every label is present with 42 days per
      earlier version, no other key is present, and the table has one entry
      per version. */
  lemma {:induction false} TimelineOfFacts(vs: seq<Version>)
    requires Distinct(vs)
    ensures TimelineOfValues(vs) && TimelineOfKeys(vs)
    ensures |TimelineOf(vs)| == |vs|
  {
    if vs != [] {
      var init := vs[..|vs| - 1];
      assert Distinct(init);
      TimelineOfFacts(init);
      TimelineOfValuesStep(vs);
      TimelineOfKeysStep(vs);
      TimelineOfSizeStep(vs);
    }
  }

  /** Every label of `vs` is a key, with 42 days per earlier version. */
  predicate TimelineOfValues(vs: seq<Version>)
  {
    forall k :: 0 <= k < |vs| ==> Label(vs[k]) in TimelineOf(vs) && TimelineOf(vs)[Label(vs[k])] == DaysPerVersion * k
  }

  /** Every key is the label of some version of `vs`. */
  predicate TimelineOfKeys(vs: seq<Version>)
  {
    forall key :: key in TimelineOf(vs) ==> exists k :: 0 <= k < |vs| && Label(vs[k]) == key
  }

  lemma TimelineOfValuesStep(vs: seq<Version>)
    requires Distinct(vs) && vs != [] && TimelineOfValues(vs[..|vs| - 1])
    ensures TimelineOfValues(vs)
  {
    var n := |vs| - 1;
    var init, x := vs[..n], vs[n];
    var m, t := TimelineOf(init), TimelineOf(vs);
    assert t == m[Label(x) := DaysPerVersion * n];
    forall k | 0 <= k < |vs|
      ensures Label(vs[k]) in t && t[Label(vs[k])] == DaysPerVersion * k
    {
      if k < n {
        assert init[k] == vs[k];
        if Label(vs[k]) == Label(x) {
          LabelInjective(vs[k], x);
        }
        assert Label(vs[k]) in m;
      }
    }
  }

  lemma TimelineOfKeysStep(vs: seq<Version>)
    requires vs != [] && TimelineOfKeys(vs[..|vs| - 1])
    ensures TimelineOfKeys(vs)
  {
    var n := |vs| - 1;
    var init, x := vs[..n], vs[n];
    var m, t := TimelineOf(init), TimelineOf(vs);
    assert t == m[Label(x) := DaysPerVersion * n];
    forall key | key in t ensures exists k :: 0 <= k < |vs| && Label(vs[k]) == key {
      if key == Label(x) {
        assert Label(vs[n]) == key;
      } else {
        assert key in m;
        var k :| 0 <= k < n && Label(init[k]) == key;
        assert init[k] == vs[k];
      }
    }
  }

  lemma TimelineOfSizeStep(vs: seq<Version>)
    requires Distinct(vs) && vs != [] && TimelineOfKeys(vs[..|vs| - 1])
    requires |TimelineOf(vs[..|vs| - 1])| == |vs| - 1
    ensures |TimelineOf(vs)| == |vs|
  {
    var n := |vs| - 1;
    var init, x := vs[..n], vs[n];
    var m := TimelineOf(init);
    assert TimelineOf(vs) == m[Label(x) := DaysPerVersion * n];
    assert Label(x) !in m by {
      if Label(x) in m {
        var k :| 0 <= k < n && Label(init[k]) == Label(x);
        assert init[k] == vs[k];
        LabelInjective(init[k], x);
      }
    }
  }

  /** The table `build_version_timeline()` builds: one entry per visited
      version, 42 days per earlier version; only visited versions are keys,
      so none has a major version of 7 or more; 52 entries. */
  lemma TimelineFacts()
    ensures forall v :: Visited(v) ==> Label(v) in Timeline() && Timeline()[Label(v)] == DaysPerVersion * Index(v)
    ensures forall key :: key in Timeline() ==> exists v :: Visited(v) && Label(v) == key
    ensures |Timeline()| == VersionCount
  {
    ScheduleFacts();
    var s := Schedule();
    assert Distinct(s) by {
      forall i, j | 0 <= i < j < |s| ensures s[i] != s[j] {
        assert Index(s[i]) == i && Index(s[j]) == j;
      }
    }
    TimelineOfFacts(s);
    forall v | Visited(v) ensures Label(v) in Timeline() && Timeline()[Label(v)] == DaysPerVersion * Index(v) {
      assert s[Index(v)] == v;
    }
    forall key | key in Timeline() ensures exists v :: Visited(v) && Label(v) == key {
      var k :| 0 <= k < |s| && Label(s[k]) == key;
      assert Visited(s[k]);
    }
  }

  /** Consecutive versions in release order are exactly 42 days apart. */
  lemma TimelineSteps()
    ensures |Schedule()| == VersionCount
    ensures forall k :: 0 <= k < VersionCount ==> Label(Schedule()[k]) in Timeline()
    ensures forall k :: 1 <= k < VersionCount ==>
      Timeline()[Label(Schedule()[k])] == Timeline()[Label(Schedule()[k - 1])] + DaysPerVersion
  {
    ScheduleFacts();
    TimelineFacts();
  }

  /** The majors roll over after 1.6 and after k.8 for k = 2..6. */
  lemma RolloverPoints()
    ensures |Schedule()| == VersionCount
    ensures Schedule()[6] == Version(1, 6) && Schedule()[7] == Version(2, 0)
    ensures forall m :: 2 <= m <= 5 ==> Schedule()[9 * m - 3] == Version(m, 8) && Schedule()[9 * m - 2] == Version(m + 1, 0)
    ensures Schedule()[VersionCount - 1] == Version(6, 8)
  {
    ScheduleFacts();
    assert Visited(Version(1, 6)) && Visited(Version(2, 0));
    forall m | 2 <= m <= 5 ensures Schedule()[9 * m - 3] == Version(m, 8) && Schedule()[9 * m - 2] == Version(m + 1, 0) {
      assert Visited(Version(m, 8)) && Index(Version(m, 8)) == 9 * m - 3;
      assert Visited(Version(m + 1, 0)) && Index(Version(m + 1, 0)) == 9 * m - 2;
    }
  }

  /** A one-digit version renders as digit, dot, digit. */
  lemma LabelOfDigits(major: nat, minor: nat)
    requires major < 10 && minor < 10
    ensures Label(Version(major, minor)) == [DigitChar(major), '.', DigitChar(minor)]
  {
  }

  /** The first entry is "1.0" at day 0 and the last is "6.8" at day 2142. */
  lemma TimelineEnds()
    ensures "1.0" in Timeline() && Timeline()["1.0"] == 0
    ensures "6.8" in Timeline() && Timeline()["6.8"] == 2142
    ensures "7.0" !in Timeline()
  {
    TimelineFacts();
    LabelOfDigits(1, 0);
    LabelOfDigits(6, 8);
    assert Label(Version(1, 0)) == "1.0";
    assert Label(Version(6, 8)) == "6.8";
    assert Visited(Version(1, 0)) && Visited(Version(6, 8));
    if "7.0" in Timeline() {
      var v :| Visited(v) && Label(v) == "7.0";
      LabelOfDigits(7, 0);
      LabelInjective(v, Version(7, 0));
    }
  }
}
