# EHR analysis: verified model of the table parser and the patient/lab queries

This project is a Dafny model of `ehr_analysis.py`, a small electronic-health-record
analysis module. It has two parts:

- **The table parser** (`parse_data`). It turns the lines of a tab-delimited text file
  into a column table: a map from each header name to the list of that column's raw
  string cells. Each line is stripped of surrounding whitespace with Python's
  `str.strip()` and split on tabs with `str.split("\t")`. Both operations are modelled
  exactly, in module `Text`. The parser itself is modelled as a method with the
  source's loops (`Table.ParseData`, `Table.EmptyColumns`, `Table.AppendRow`). It is
  proved equal to a declarative specification, `Table.ParseSpec`, and the parser's
  promises are proved as lemmas about that specification.
- **The patient/lab queries** (`Patient.age`, `Patient.age_at_first_admission`,
  `Patient.is_sick`, `num_older_than`, `sick_patients`). In the source these are SQL
  queries over a SQLite cursor. Here they run over in-memory copies of the two tables:
  `Ehr.Db` holds a sequence of `PatientRow(pid, gender, dob, race)` and a sequence of
  `LabRow(pid, aid, name, value, date)`, both in insertion order.
  - A `select ... where ...` becomes a scan in that order.
  - `fetchone` becomes "the first matching row"; no match is the source's `None`,
    which leads to the error it raises.
  - `fetchall` becomes "every matching row".
  - Timestamps are integers counting microseconds. `Ehr.DaysBetween` is a
    timedelta's `.days`, rounded down. The wall-clock `now` is a parameter.
  - The exceptions become `Err` values of `Ehr.QueryError`.
  - `num_older_than` and `sick_patients` are methods with the source's loops. Each is
    proved equal to a specification function (`Ehr.CountOlder`, `Ehr.SickSpec`), and
    the lemmas state what those functions mean.

Modules: `Results` (Option/Result), `Text` (strip, split, join), `Table`
(`parse_data`), `Ehr` (the queries).

Behaviour of the code that the model keeps as written:

- `is_sick` looks up the lab row first and checks the comparator only after
  (ehr_analysis.py:74-84). A missing lab is therefore reported even when the
  comparator is also invalid (`Ehr.IsSickMissingLab`).
- `sick_patients` lets the missing-lab error of `is_sick` propagate
  (ehr_analysis.py:162-164). One patient without the lab aborts the whole query
  (`Ehr.SickSpecFirstError`, `Ehr.FixtureSickPatientsRaises`), where
  tests/test.py:140-141 expect a set: `{"2", "3"}` although the list includes
  patient 99, who has no such lab, and `set()` for an unknown lab.
  - With an invalid comparator the query raises whichever error the first patient
    hits. With no patients it returns the empty set
    (`Ehr.SickPatientsBadComparator`).
- `age_at_first_admission` measures from the first admission to `now`
  (ehr_analysis.py:62-65), not from birth as its docstring (ehr_analysis.py:56) and
  tests/test.py:149-151 say. See "## Findings".
- `age_at_first_admission` raises when there is no lab row with admission id 1, and
  does not check that the patient exists (ehr_analysis.py:57-61).

## Model

| member | source | states |
|---|---|---|
| `Text.LeadingSpaces` | ehr_analysis.py:107 | the leading-whitespace half of `strip()`: every character before the count is whitespace and the next one (if any) is not |
| `Text.TrailingSpaces` | ehr_analysis.py:107 | the trailing-whitespace half of `strip()`: every character in the counted tail is whitespace and the one before it (if any) is not |
| `Text.Strip` | ehr_analysis.py:107 | `strip()` never lengthens the line and leaves no whitespace at either end |
| `Text.StripOfSpaced` | ehr_analysis.py:113 | `strip()` is exactly "remove whitespace at both ends": whitespace + trimmed core + whitespace strips to that core (tabs, `\r` and `\n` included) |
| `Text.IndexOf` | ehr_analysis.py:113 | where `split("\t")` cuts: at a tab, or at the end of the string when there is none |
| `Text.IndexOfFirst` | ehr_analysis.py:113 | the cut is at the first tab: none occurs before it |
| `Text.Split` | ehr_analysis.py:113 | `split("\t")` always yields at least one field, even for the empty string |
| `Text.SplitFieldsFree` | ehr_analysis.py:113 | no field of a split contains a tab |
| `Text.JoinSplit` | ehr_analysis.py:113 | `split("\t")` yields fields that contain no tab and that, joined with tabs, give the line back |
| `Text.SplitJoin` | ehr_analysis.py:113 | the other direction: splitting tab-joined, tab-free fields recovers exactly those fields |
| `Text.SplitTrailingSeparator` | ehr_analysis.py:113 | a tab at the very end of a string gives one extra, empty, field |
| `Table.Fields` | ehr_analysis.py:107 | a stripped, split line always has at least one field |
| `Table.EmptyColumns` | ehr_analysis.py:108-110 | after the first loop, the table's keys are exactly the header names and every column is empty |
| `Table.AppendRow` | ehr_analysis.py:113-115 | one data line appends field `j` to column `header[j]` for every `j`; it fails exactly when the line has fewer fields than the header |
| `Table.ParseData` | ehr_analysis.py:87-116 | the loops of `parse_data` compute exactly `ParseSpec` |
| `Table.ParseSpec` | ehr_analysis.py:103-115 | zero lines give the empty map, not an error; a successful parse has exactly the header's names as keys |
| `Table.ParseHeaderOnly` | ehr_analysis.py:106-110 | a header line alone gives one key per header field, each mapped to an empty column |
| `Table.ParseSucceeds` | ehr_analysis.py:106-115 | with no short data line, the result is every header name mapped to its column |
| `Table.ColumnDistinct` | ehr_analysis.py:112-115 | with distinct header names, column `header[j]` holds field `j` of every row, in row order, one cell per row |
| `Table.RowOfLine` | ehr_analysis.py:112-113 | data line `i` of the file is row `i - 1` of the table being built |
| `Table.ParseRowsColumns` | ehr_analysis.py:108-115 | over split rows with distinct header names and no short row: the keys are the header names, each column has one cell per row, and cell `k` of column `header[j]` is field `j` of row `k` |
| `Table.ParseColumns` | ehr_analysis.py:112-115 | with distinct header names and no short line: the keys are the header names, every column has `|lines| - 1` cells, and cell `i - 1` of column `header[j]` is field `j` of line `i` |
| `Table.ParseFails` | ehr_analysis.py:113-115 | `parse_data` raises IndexError exactly when some data line has fewer fields than the header (both directions) |
| `Table.ShortLineFails` | ehr_analysis.py:114-115 | a single short data line makes the whole parse fail |
| `Table.ParseIgnoresExtraFields` | ehr_analysis.py:114-115 | fields beyond the header's count are never read: texts with the same header whose lines agree on the first header-count fields parse to the same table |
| `Table.TrailingEmptyFieldLost` | ehr_analysis.py:113 | because the line is stripped before the split, a trailing empty field is lost with the line break, where a plain split would keep it |
| `Table.LeadingEmptyFieldLost` | ehr_analysis.py:107-113 | the strip also removes a leading tab: a line whose first cell is empty loses that cell and every later cell moves one column left, where a plain split would keep the empty first field |
| `Table.FieldsOfJoinedLine` | ehr_analysis.py:113 | a line written as tab-joined fields plus a line break reads back as those fields, provided it does not start or end with whitespace |
| `Ehr.DaysBetween` | ehr_analysis.py:52-53 | `.days` of a time difference: the whole days `d` with `d` days <= span < `d + 1` days (rounded down, also for negative spans) |
| `Ehr.Years` | ehr_analysis.py:53 | a day count divided by 365.25: the result, times 365.25, is exactly the day count |
| `Ehr.DaysBetweenMonotone` | ehr_analysis.py:51-53 | a later end time never gives fewer whole days |
| `Ehr.PatientIds` | ehr_analysis.py:132-134 | `select pid from patients` lists every row's id, in table order |
| `Ehr.FindPatient` | ehr_analysis.py:45-48 | `fetchone` on `where pid = {pid}`: the first row with that id, or none |
| `Ehr.FindLab` | ehr_analysis.py:71-76 | `fetchone` on `where pid = ? and aid = ? and name = ?`: the first matching row, or none |
| `Ehr.FirstAdmissionDates` | ehr_analysis.py:57-59 | `fetchall` on `where pid = {pid} and aid = 1`: a date is listed exactly when some such row carries it |
| `Ehr.Min` | ehr_analysis.py:62 | `min` of a non-empty list is one of its elements and no larger than any |
| `Ehr.Age` | ehr_analysis.py:43-53 | `age` raises "not found" exactly when no row has the id; otherwise it is the whole days from the first such row's date of birth to `now`, over 365.25 |
| `Ehr.AgeMonotone` | ehr_analysis.py:51-53 | a patient's age never decreases as `now` moves forward |
| `Ehr.AgeAtFirstAdmission` | ehr_analysis.py:55-65 | raises "has not taken any lab yet" exactly when no lab row has this id and admission id 1; otherwise it measures from an earliest such row's date (no later than any other) to `now` |
| `Ehr.IsSick` | ehr_analysis.py:67-84 | the only errors are "this patient has not taken" and "incorrect string for gt_lt"; the latter only for a comparator other than `">"`/`"<"`, and a result is returned only for those two |
| `Ehr.IsSickMissingLab` | ehr_analysis.py:74-78 | `is_sick` raises "this patient has not taken" exactly when no lab row matches, whatever the comparator |
| `Ehr.IsSickFirstRow` | ehr_analysis.py:76-84 | with a first matching row: `">"` is its value strictly above, `"<"` strictly below, and any other comparator raises "incorrect string for gt_lt" |
| `Ehr.IsSickIgnoresLaterRows` | ehr_analysis.py:76 | only the first matching row is used: lab rows after it never change the answer |
| `Ehr.CountOlder` | ehr_analysis.py:135-138 | the count never exceeds the number of ids scanned |
| `Ehr.NumOlderThan` | ehr_analysis.py:119-139 | the loop of `num_older_than` computes exactly `CountOlder` over the patient ids |
| `Ehr.ListedPatientsHaveAge` | ehr_analysis.py:132-137 | the age lookup inside `num_older_than` never raises, since every id comes from the patients table |
| `Ehr.CountOlderAntitone` | ehr_analysis.py:137 | raising the threshold never raises the count |
| `Ehr.CountOlderExtremes` | ehr_analysis.py:135-139 | the count equals the number of ids exactly when all pass the strict age test, and is 0 exactly when none does |
| `Ehr.CountOlderAll` | ehr_analysis.py:135-139 | the count equals the number of ids exactly when every id passes the strict age test |
| `Ehr.CountOlderNone` | ehr_analysis.py:135-139 | the count is 0 exactly when no id passes the strict age test |
| `Ehr.OwnAge` | ehr_analysis.py:43-53 | with unique ids, the age reported for a row's id is that row's own age |
| `Ehr.CountOlderStep` | ehr_analysis.py:135-138 | with unique ids, one more patient row adds one to the count exactly when that row's own age is strictly above the threshold |
| `Ehr.NumOlderThanCountsRows` | ehr_analysis.py:132-139 | with unique ids, `num_older_than` is the number of patient rows whose own age is strictly above the threshold |
| `Ehr.SickSpec` | ehr_analysis.py:157-165 | every id `sick_patients` returns is one of the ids it scanned |
| `Ehr.SickSpecAppend` | ehr_analysis.py:162-164 | scanning one more id whose `is_sick` succeeds adds that id exactly when the answer is true |
| `Ehr.SickErrorSticks` | ehr_analysis.py:162-164 | once an `is_sick` call has raised, the rest of the loop cannot turn the result back into a success |
| `Ehr.SickPatients` | ehr_analysis.py:142-165 | the loop of `sick_patients` computes exactly `SickSpec` over the patient ids |
| `Ehr.SickSpecSucceeds` | ehr_analysis.py:157-165 | `sick_patients` succeeds exactly when `is_sick` succeeds for every id, and then returns exactly the ids for which it is true |
| `Ehr.SickSpecOk` | ehr_analysis.py:157-165 | the query succeeds exactly when `is_sick` succeeds for every id |
| `Ehr.SickSpecValue` | ehr_analysis.py:157-165 | on success the result is exactly the set of ids for which `is_sick` is true |
| `Ehr.SickPatientsAreListed` | ehr_analysis.py:159-165 | on success every returned id is a patient id from the table |
| `Ehr.SickSpecFirstError` | ehr_analysis.py:162-164 | the first id whose `is_sick` raises decides the error of the whole query, and no set is returned |
| `Ehr.SickPatientsBadComparator` | ehr_analysis.py:79-84 | with a comparator other than `">"`/`"<"` the query raises for any non-empty table: "incorrect string" if the first patient has the lab, "has not taken" if not; an empty table gives the empty set |
| `Ehr.FixturePatientIds` | ehr_analysis.py:159-161 | on the test fixture, `select pid from patients` lists 1, 2, 3, 99 (and 1, 2, 3 without the last patient) |
| `Ehr.FixtureLabLookups` | ehr_analysis.py:71-76 | on the test fixture, the first lab_a row at admission 1 is row 0, 3 and 5 for patients 1, 2 and 3, and there is none for patient 99 |
| `Ehr.FixtureIsSick` | ehr_analysis.py:74-80 | on the fixture's labs, `is_sick("lab_a", ">", 1)` is false for patient 1, true for 2 and 3, and raises "this patient has not taken" for 99 |
| `Ehr.FixtureScan` | ehr_analysis.py:157-165 | in any database answering `is_sick` as the fixture does, scanning ids 1, 2, 3 gives {2, 3} |
| `Ehr.FixtureScanRaises` | ehr_analysis.py:157-165 | in any database answering `is_sick` as the fixture does, scanning ids 1, 2, 3, 99 raises "this patient has not taken" when 99 has no matching lab |
| `Ehr.FixtureSickPatients` | ehr_analysis.py:157-165 | on the test fixture, `sick_patients` with "lab_a" `>` 1 over the patients table holding 1, 2, 3 gives {2, 3}: a value of exactly 1 is not strictly above 1 |
| `Ehr.FixtureSickPatientsRaises` | ehr_analysis.py:157-165 | adding patient 99, who has no lab_a, makes the same query raise "has not taken" instead of skipping that patient |
| `Ehr.AgeAtFirstAdmissionFromBirth` | ehr_analysis.py:55-65 | corrected definition: raises exactly when the patient has no admission-1 lab or no patient row |
| `Ehr.AgeAtFirstAdmissionFromBirthSpec` | ehr_analysis.py:55-65 | corrected definition: the whole days from the date of birth to the earliest admission-1 lab date, over 365.25; raises exactly when there is no such lab |
| `Ehr.AgeSplitsAtFirstAdmission` | ehr_analysis.py:62-65 | what the code computes (time since the first admission) plus the corrected age at first admission equals the current age, to within one day |
| `Ehr.AgeAtFirstAdmissionCounterexample` | ehr_analysis.py:62-65 | a concrete patient for whom the code answers about 18.9 years where the age at first admission is about 60 |

## Left out

- SQLite plumbing is not modelled: `Cursor.execute`, `fetchone`, `fetchall`, `Lab.insert_lab` and `Patient.insert_patient` (ehr_analysis.py:19-41). The tables are sequences of rows. The queries have no `ORDER BY`, so the row order of an unordered select is assumed to be insertion order.
- The f-string interpolation of `pid` into SQL (ehr_analysis.py:45, 57) is not modelled. It is an injection hazard with no behaviour to model for integer ids. SQL `NULL` ids are not modelled either.
- File opening, the `utf-8-sig` decoding (which removes a leading byte-order mark) and `readlines` (ehr_analysis.py:100-101) are I/O. The model takes the list of lines, each with its line break.
- `datetime.now()` is the wall clock. It is the parameter `now`.
- `Ehr.NumOlderThan`: `age` reads the clock itself on every call (ehr_analysis.py:51), so `num_older_than` reads it once per patient (ehr_analysis.py:137) and can judge later patients at a later instant. The model, and with it `Ehr.CountOlder`, `Ehr.CountOlderAntitone` and `Ehr.NumOlderThanCountsRows`, fixes one instant `now` for the whole query.
- `datetime.strptime` with `DATE_FORMAT` is a library parser. Timestamps are integer microseconds. Text that fails to parse is not modelled. That includes a date stored without a fractional part, which `strptime` would reject.
- Floating point is not modelled: ages, thresholds and lab values are exact `real`s. Rounding in `days / 365.25` and in float comparisons is not modelled.
- `Table.ParseData`: the IndexError carries no message. The partly built dictionary is discarded by the exception, so it is not modelled.
- `Ehr.NumOlderThan`: it counts only ids whose age lookup succeeds. The source would raise on a failing lookup, but that cannot happen (`Ehr.ListedPatientsHaveAge`).
- The unused imports `cmath.pi` and `black.diff` (ehr_analysis.py:6, 10) are not modelled.
- The object-graph API that most of tests/test.py exercises is not modelled: `Patient(pid=...)`, `takes_lab`, `age` as a property, and `num_older_than(age, patients)`. This module does not define it.
- The rounded-age assertions of tests/test.py:114-116 and 149-151 are not modelled. They depend on the current date and on float rounding.
- `Table.ParseData`: `parse_data` returns a dictionary whose keys keep header order (first occurrence of each name). `ColumnTable` is an unordered map, so that key order is not modelled; the source and its tests only compare the dictionaries with `==`.
- Building patient entities from parsed tables is not modelled. This module never does it; its queries read the database tables directly.

## Findings

| source | as written | input that shows it | evidently intended | confidence | as-written member | corrected member |
|---|---|---|---|---|---|---|
| ehr_analysis.py:62-65 | `age_at_first_admission` returns `(now - min_labdate).days / 365.25`. That is the time elapsed since the first admission, and it never reads the date of birth. | A patient born at time 0 whose only admission-1 lab is 21917 days later, asked 6900 days after that lab. The code returns 6900 / 365.25, about 18.9. | The age on the date of the first admission: `(min_labdate - dob).days / 365.25`, about 60 here. This is what the name and docstring say and what tests/test.py:149-151 expect. | not executed; high | `Ehr.AgeAtFirstAdmissionCounterexample` | `Ehr.AgeAtFirstAdmissionFromBirth`, `Ehr.AgeAtFirstAdmissionFromBirthSpec` |

The as-written behaviour is `Ehr.AgeAtFirstAdmission`, whose contract states its
meaning. The corrected definition is
`Ehr.AgeAtFirstAdmissionFromBirth`. `Ehr.AgeSplitsAtFirstAdmission` ties the two
together: the code's value plus the intended value is the patient's current age,
within one day.
