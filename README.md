# Wish statistics cleaner, modelled in Dafny

This project models the cleaning stage of a small analysis tool for gacha
banner statistics (`data_cleaner.py`). The stage has three parts:

1. **Version calendar.** Starting at version 1.0 on day 0, the game
   versions are walked in release order. The walk rolls over to the next
   major version after 1.6 and after k.8 for every other major version k.
   It adds 42 days per version and stops when the major version reaches 7.
   The result is a table from the label `"major.minor"` to days since launch
   (`timeline.dfy`, module `VersionTimeline`).
2. **Report parser.** The stripped lines of a wish report are read with a
   cursor. A section header `5.2 A` sets the current version and phase.
   Under a section, a line `13,980 Kazuha Summoned` is a one-line record. A
   count-only line `109,105` is joined with the next non-blank line when
   that line reads `<name> Summoned`. Any other line is skipped. Each record
   gets the version's day from the calendar, plus 21 days in phase B, and
   the major version number (`parser.dfy`, module `ReportParser`). The four
   regular expressions the parser uses are written out by hand as split
   predicates with extractors (`patterns.dfy`, module `Patterns`). Digits,
   whitespace and decimal numbers are in `text.dfy` (module `Text`).
3. **Rerun calculator.** The records are sorted by days since launch and
   walked once. Two dictionaries track, per character, the day of the last
   appearance and the number of appearances. Each row gets its rerun count
   (0 for a first appearance) and, for a repeat, the gap between the end of
   the previous banner (21 days after its start) and its own start, clamped
   at 0 (`reruns.dfy`, module `RerunCalculator`).

The record type shared by the parser and the calculator is in `records.dfy`
(module `Records`).

The three loops of the source are methods, each proved equal to a
specification function:

- `BuildVersionTimeline` returns `Timeline()`.
- `ParseWishStats` returns `Parse(lines, Timeline())`.
- `ComputeReruns` returns `Annotate(SortByDays(records))`.

The properties of the calendar, the parser and the calculator are lemmas
about those functions.

## Model

| member | source | states |
|---|---|---|
| VersionTimeline.MaxMinor | data_cleaner.py:13-22 | The last minor version is 6 for major 1 and 8 for every other major, including majors the table does not list. |
| VersionTimeline.NextVersion | data_cleaner.py:22-25 | The successor is (major + 1, 0) exactly when minor is at least the major's last minor, and (major, minor + 1) exactly otherwise; it is always later in release order. |
| VersionTimeline.LabelInjective | data_cleaner.py:36 | Distinct versions get distinct `f"{major}.{minor}"` labels, so no insertion overwrites an earlier one. |
| VersionTimeline.BuildVersionTimeline | data_cleaner.py:27-45 | The walk's loop returns the table of the specification: each visited label inserted in order, 42 days per earlier version. |
| VersionTimeline.ScheduleFacts | data_cleaner.py:30-42 | The walk visits exactly 52 versions, 1.0 to 1.6 and k.0 to k.8 for k = 2..6, in release order, each followed by its successor, from 1.0 to 6.8. |
| VersionTimeline.RolloverPoints | data_cleaner.py:13-25 | In the walk, 1.6 is followed by 2.0 and k.8 by (k+1).0 for k = 2..5; the last version is 6.8. |
| VersionTimeline.TimelineFacts | data_cleaner.py:35-43 | Every visited version's label maps to 42 times its position; every key is a visited version's label (so none has major 7 or more); there are 52 entries. |
| VersionTimeline.TimelineSteps | data_cleaner.py:37-43 | In generation order, each entry is exactly 42 days after its predecessor. |
| VersionTimeline.TimelineEnds | data_cleaner.py:29-37 | "1.0" maps to 0, "6.8" maps to 2142, and "7.0" is not a key. |
| Text.DigitsValueOfNatToString | data_cleaner.py:36 | Reading back the decimal rendering of a number gives the number. |
| Patterns.CountValueGroups | data_cleaner.py:97 | Removing the commas of a grouped count and reading it as a number treats each comma as a thousands separator. |
| Patterns.GroupedCountSnoc | data_cleaner.py:97 | A count followed by a `,ddd` group is still a count, and its value is a thousand times the count plus the group. |
| Patterns.HeaderMatchCorrect | data_cleaner.py:54 | The header matcher accepts exactly the lines `<digits>.<digits><ws><A/B/C>...` and returns the label and the phase found there. |
| Patterns.CountLineMatchCorrect | data_cleaner.py:57 | The count matcher accepts exactly a grouped count followed by whitespace only, and returns its value with the commas removed. |
| Patterns.NameMatchCorrect | data_cleaner.py:60 | The character matcher accepts exactly `<name><ws>Summoned`, and returns the longest name the pattern allows, as the greedy group does. |
| Patterns.MixedMatchCorrect | data_cleaner.py:63 | The mixed matcher accepts exactly `<count><ws><name><ws>Summoned`, and returns the count and the name of the split the backtracking matcher settles on. |
| ReportParser.StepAt | data_cleaner.py:74-154 | One pass of the loop body always advances the cursor and emits at most one record. A record needs an open section, and the section only changes on a header line, which emits nothing. |
| ReportParser.SkipBlankLines | data_cleaner.py:123-125 | The look-ahead loop stops at the first non-blank line after the count line, or at the end. |
| ReportParser.NextNonBlank | data_cleaner.py:123-125 | The look-ahead target is not before its start, all lines skipped are blank, and the target is non-blank unless it is the end. |
| ReportParser.ParseLine | data_cleaner.py:75-154 | The loop body, with each `continue` as an early return, does what StepAt specifies. |
| ReportParser.ParseWishStats | data_cleaner.py:47-156 | The cursor loop over the report lines returns the records of the specification `Parse`, under the table the calendar builds. |
| ReportParser.HeaderLineSetsSection | data_cleaner.py:81-86 | A header line sets the version and the phase from its two groups, consumes one line and emits nothing, whether or not a section was open. |
| ReportParser.SkipsUntilHeader | data_cleaner.py:88-90 | Lines before the first header are skipped without emitting anything. |
| ReportParser.NoHeaderNoRecords | data_cleaner.py:88-90 | A report without a header line yields no record. |
| ReportParser.MixedLineEmitsRecord | data_cleaner.py:93-116 | Under a section, a one-line record emits exactly one record with the count, commas removed, and the name, and consumes one line. |
| ReportParser.TwoLineEmitsRecord | data_cleaner.py:119-149 | Under a section, a count-only line whose next non-blank line is a character line emits one record with the count and the name, and moves the cursor past the character line. |
| ReportParser.TwoLineFallsBack | data_cleaner.py:119-154 | When the next non-blank line is missing or is not a character line, a count-only line emits nothing and consumes only itself. |
| ReportParser.OtherLineSkipped | data_cleaner.py:153-154 | A line of no known shape is skipped without effect. |
| ReportParser.ParsedRecords | data_cleaner.py:100-105 | Every parsed record's days are the version's table entry (0 when absent) plus 21 in phase B only. Its major version is the number before the dot of its `digits.digits` label. Its name is not empty. |
| ReportParser.RecordsInLineOrder | data_cleaner.py:73-154 | Records come out in the order of the lines they are read at. There is one strictly increasing line number per record. At that line the record's count and name are read: a one-line record, or a count-only line whose next non-blank line is the character line. |
| ReportParser.ParseFromBound | data_cleaner.py:74-154 | The parser emits at most one record per line. |
| ReportParser.TwoLineExample | data_cleaner.py:119-149 | `5.2 A`, `109,105`, `Chasca Summoned` parse to one record: Chasca, 109105 wishes, day 1512, major 5. |
| ReportParser.UnmatchedLookAheadExample | data_cleaner.py:127-154 | A count line whose next non-blank line is a win-rate line yields nothing. |
| ReportParser.MixedLineExample | data_cleaner.py:93-116 | `5.2 C`, `13,980 Kaedehara Kazuha Summoned` parse to one record: Kaedehara Kazuha (the whole two-word name), 13980 wishes, day 1512 (phase C adds nothing), major 5. |
| RerunCalculator.SortByDays | data_cleaner.py:160 | The sorted table is ordered by non-decreasing days and is a permutation of the input. |
| RerunCalculator.SortSortedIsIdentity | data_cleaner.py:160 | Sorting an already sorted table leaves it unchanged. |
| RerunCalculator.ComputeReruns | data_cleaner.py:158-203 | The sort, the reset of both rerun columns and the dictionary walk return every sorted row annotated against the rows before it. |
| RerunCalculator.AnnotateRow | data_cleaner.py:172-201 | One turn of the walk fills the row's rerun columns as the specification does for the rows before it. Afterwards the two dictionaries map each character seen so far to the day of its last appearance and to its number of appearances. |
| RerunCalculator.Annotate | data_cleaner.py:163-201 | The walk changes no column but the two rerun columns. |
| RerunCalculator.FirstAppearance | data_cleaner.py:195-201 | A row has rerun count 0 and no interval exactly when no earlier row has the same character. |
| RerunCalculator.RepeatAppearance | data_cleaner.py:176-193 | A repeat appearance counts one more than the previous appearance of its character. Its interval is its start minus (that appearance's start + 21), or 0 when negative. |
| RerunCalculator.RerunCountIsEarlierAppearances | data_cleaner.py:186-188 | A row's rerun count is the number of earlier rows of the same character, so a character's k-th appearance has count k - 1. |
| RerunCalculator.AnnotateIdempotent | data_cleaner.py:163-164 | Because both rerun columns are recomputed on every row, annotating an annotated table changes nothing. |
| RerunCalculator.ComputeRerunsTable | data_cleaner.py:158-203 | The result is sorted by days and holds the input's records up to the rerun columns. Running the calculator again on its result gives the same table. |
| RerunCalculator.RerunExample | data_cleaner.py:176-201 | One character on days 10, 80 and 150 gets counts 0, 1 and 2 and intervals none, 49 and 49. |
| RerunCalculator.OverlapExample | data_cleaner.py:176-201 | Furina on days 10, 80 and 90 get counts 0, 1 and 2 and intervals none, 49 and 0; Nahida on day 70 gets count 0 and no interval. The last banner starts before the previous one ends, so its interval is clamped. |

## Left out

- Reading the report file and stripping its lines (data_cleaner.py:67-68): the parser takes the stripped lines as a sequence of strings.
- The `__main__` driver that writes the CSV file (data_cleaner.py:205-220) and the statistics and plots of run_analysis.py; run_analysis.py is not part of this model.
- The result is a sequence of records, not a pandas DataFrame with an index; `df.at[idx, ...]` is an update of row `k` of the sequence.
- Python's regular expression engine: the four patterns are written out by hand. `\d` and `\s` are the ASCII classes (Python also accepts other Unicode digits and spaces). `.` is any character and `$` the end of the string, since a stripped line holds no line feed.
- The `except IndexError` branch (data_cleaner.py:150-151): no index in the look-ahead can fail, so the branch is unreachable and is not modelled.
- RerunCalculator.SortByDays: pandas' default `sort_values` is a quicksort and not stable, so the source leaves the order of rows with equal days open; the model sorts stably (insertion sort). Every record under one section header has the same day, so such ties are common.
- RerunCalculator.SortSortedIsIdentity: holds for the stable sort of the model only. pandas' quicksort may reorder rows with equal days even when the table is already sorted.
- RerunCalculator.ComputeRerunsTable: its idempotence clause relies on SortSortedIsIdentity, so it too holds for the stable sort only. In the source, a second run on a larger table may reorder rows with equal days. When two such rows belong to the same character, their rerun columns may also be swapped.
- RerunCalculator.ComputeReruns: a report with no record gives a DataFrame without columns, on which `sort_values('DaysSinceLaunch')` raises `KeyError`; the model returns the empty table.
- The parser's records carry the two rerun columns as `None` and 0; in the source those columns do not exist until the rerun calculator adds them, and it resets them first.
