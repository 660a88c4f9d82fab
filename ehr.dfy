/**
 * The patient and lab queries of `ehr_analysis.py`, over in-memory copies of
 * the two tables the queries read: `patients (pid, gender, dob, race)` and
 * `labs (pid, aid, name, value, date)`, each a sequence of rows in insertion
 * order. A `select ... where ...` is a scan in that order; `fetchone` is the
 * first matching row and `fetchall` every matching row.
 */
module Ehr {
  import opened Results

  /** A point in time, in microseconds from an arbitrary origin (dates carry six fractional digits). */
  type Timestamp = int

  const MicrosPerDay: int := 86_400_000_000

  datatype PatientRow = PatientRow(pid: int, gender: string, dob: Timestamp, race: string)

  datatype LabRow = LabRow(pid: int, aid: int, name: string, value: real, date: Timestamp)

  /** The database behind the cursor. */
  datatype Db = Db(patients: seq<PatientRow>, labs: seq<LabRow>)

  /** The exceptions the queries raise. */
  datatype QueryError =
    | PatientNotFound(pid: int)   // ValueError "pid {pid} not found."
    | NoLabYet(pid: int)          // AttributeError "Patient {pid} has not taken any lab yet."
    | LabNotTaken                 // AttributeError "this patient has not taken"
    | BadComparator(gtLt: string) // ValueError "incorrect string for gt_lt: {gt_lt}"

  // ---------------------------------------------------------------------
  // Time

  /** `(to - from).days`: the whole days elapsed, rounded down as a timedelta's day count is, also for negative spans. */
  function DaysBetween(from: Timestamp, to: Timestamp): (d: int)
    ensures d * MicrosPerDay <= to - from < (d + 1) * MicrosPerDay
  {
    (to - from) / MicrosPerDay
  }

  /** A day count in years: `days / 365.25`. */
  function Years(days: int): (y: real)
    ensures y * 365.25 == days as real
  {
    days as real / 365.25
  }

  lemma DaysBetweenMonotone(from: Timestamp, to1: Timestamp, to2: Timestamp)
    requires to1 <= to2
    ensures DaysBetween(from, to1) <= DaysBetween(from, to2)
  {
    var d1, d2 := DaysBetween(from, to1), DaysBetween(from, to2);
    assert d1 * MicrosPerDay < (d2 + 1) * MicrosPerDay;
  }

  // ---------------------------------------------------------------------
  // Selections over the tables

  /** `select pid from patients`: every patient id, in table order. */
  function PatientIds(db: Db): (ids: seq<int>)
    ensures |ids| == |db.patients|
    ensures forall k :: 0 <= k < |ids| ==> ids[k] == db.patients[k].pid
  {
    seq(|db.patients|, k requires 0 <= k < |db.patients| => db.patients[k].pid)
  }

  /** `... from patients where pid = {pid}` then `fetchone`: the index of the first such row, or `|patients|` when none. */
  function FindPatient(patients: seq<PatientRow>, pid: int): (k: nat)
    ensures k <= |patients|
    ensures k < |patients| ==> patients[k].pid == pid
    ensures forall m :: 0 <= m < k ==> patients[m].pid != pid
  {
    if patients == [] then 0
    else if patients[0].pid == pid then 0
    else 1 + FindPatient(patients[1..], pid)
  }

  /** The row filter of `is_sick`: `pid = ? and aid = ? and name = ?`. */
  predicate LabMatches(l: LabRow, pid: int, aid: int, name: string)
  {
    l.pid == pid && l.aid == aid && l.name == name
  }

  /** `select value from labs where pid = ? and aid = ? and name = ?` then `fetchone`: the first such row, or `|labs|`. */
  function FindLab(labs: seq<LabRow>, pid: int, aid: int, name: string): (k: nat)
    ensures k <= |labs|
    ensures k < |labs| ==> LabMatches(labs[k], pid, aid, name)
    ensures forall m :: 0 <= m < k ==> !LabMatches(labs[m], pid, aid, name)
  {
    if labs == [] then 0
    else if LabMatches(labs[0], pid, aid, name) then 0
    else 1 + FindLab(labs[1..], pid, aid, name)
  }

  /** The row filter of `age_at_first_admission`: `pid = {pid} and aid = 1`. */
  predicate FirstAdmissionLab(l: LabRow, pid: int)
  {
    l.pid == pid && l.aid == 1
  }

  /** `select date from labs where pid = {pid} and aid = 1` then `fetchall`: the dates of exactly those rows. */
  function FirstAdmissionDates(labs: seq<LabRow>, pid: int): (dates: seq<Timestamp>)
    ensures |dates| <= |labs|
    ensures forall d :: d in dates <==> exists k :: 0 <= k < |labs| && FirstAdmissionLab(labs[k], pid) && labs[k].date == d
    ensures |dates| == 0 <==> forall k :: 0 <= k < |labs| ==> !FirstAdmissionLab(labs[k], pid)
  {
    if labs == [] then []
    else
      var rest := FirstAdmissionDates(labs[1..], pid);
      assert forall k :: 0 <= k < |labs| - 1 ==> labs[1..][k] == labs[k + 1];
      if FirstAdmissionLab(labs[0], pid) then [labs[0].date] + rest else rest
  }

  /** Python's `min` of a non-empty list: an element no larger than any other. */
  function Min(s: seq<Timestamp>): (m: Timestamp)
    requires |s| > 0
    ensures m in s
    ensures forall x :: x in s ==> m <= x
  {
    if |s| == 1 then s[0]
    else
      var rest := Min(s[1..]);
      assert forall x :: x in s ==> x == s[0] || x in s[1..];
      if s[0] <= rest then s[0] else rest
  }

  // ---------------------------------------------------------------------
  // Patient.age, Patient.age_at_first_admission, Patient.is_sick

  /** `Patient.age`: years from the date of birth of the first row with this id to `now`. */
  function Age(db: Db, pid: int, now: Timestamp): (r: Result<real, QueryError>)
    ensures r.Err? <==> forall k :: 0 <= k < |db.patients| ==> db.patients[k].pid != pid
    ensures r.Err? ==> r.error == PatientNotFound(pid)
    ensures r.Ok? ==> exists k :: (0 <= k < |db.patients| && db.patients[k].pid == pid
      && (forall m :: 0 <= m < k ==> db.patients[m].pid != pid)
      && r.value == Years(DaysBetween(db.patients[k].dob, now)))
  {
    var k := FindPatient(db.patients, pid);
    if k == |db.patients| then Err(PatientNotFound(pid))
    else Ok(Years(DaysBetween(db.patients[k].dob, now)))
  }

  /** `Patient.age_at_first_admission`, as written: years from the earliest first-admission lab date to `now`. */
  function AgeAtFirstAdmission(db: Db, pid: int, now: Timestamp): (r: Result<real, QueryError>)
    ensures r.Err? <==> forall k :: 0 <= k < |db.labs| ==> !FirstAdmissionLab(db.labs[k], pid)
    ensures r.Err? ==> r.error == NoLabYet(pid)
    ensures r.Ok? ==> exists k :: (0 <= k < |db.labs| && FirstAdmissionLab(db.labs[k], pid)
      && r.value == Years(DaysBetween(db.labs[k].date, now))
      && forall m :: 0 <= m < |db.labs| && FirstAdmissionLab(db.labs[m], pid) ==> db.labs[k].date <= db.labs[m].date)
  {
    var dates := FirstAdmissionDates(db.labs, pid);
    if |dates| == 0 then Err(NoLabYet(pid))
    else
      assert dates[0] in dates;
      assert forall m :: 0 <= m < |db.labs| && FirstAdmissionLab(db.labs[m], pid) ==> db.labs[m].date in dates;
      Ok(Years(DaysBetween(Min(dates), now)))
  }

  /**
   * `Patient.is_sick`: compares the value of the first lab row matching
   * `(pid, aid, labName)` with `value`, strictly. The missing row is
   * reported before the comparator is looked at.
   */
  function IsSick(db: Db, pid: int, aid: int, labName: string, gtLt: string, value: real): (r: Result<bool, QueryError>)
    ensures r.Err? ==> r.error == LabNotTaken || r.error == BadComparator(gtLt)
    ensures r.Err? && r.error.BadComparator? ==> gtLt != ">" && gtLt != "<"
    ensures r.Ok? ==> gtLt == ">" || gtLt == "<"
  {
    var k := FindLab(db.labs, pid, aid, labName);
    if k == |db.labs| then Err(LabNotTaken)
    else
      var labValue := db.labs[k].value;
      if gtLt == ">" then Ok(labValue > value)
      else if gtLt == "<" then Ok(labValue < value)
      else Err(BadComparator(gtLt))
  }

  // ---------------------------------------------------------------------
  // num_older_than

  /** The test applied to each id: `Patient().age(c, pid) > age`. */
  predicate IsOlder(db: Db, pid: int, age: real, now: Timestamp)
  {
    var a := Age(db, pid, now);
    a.Ok? && a.value > age
  }

  /** How many of `pids` pass the age test. */
  function CountOlder(db: Db, pids: seq<int>, age: real, now: Timestamp): (n: nat)
    ensures n <= |pids|
  {
    if pids == [] then 0
    else
      var i := |pids| - 1;
      CountOlder(db, pids[..i], age, now) + (if IsOlder(db, pids[i], age, now) then 1 else 0)
  }

  /** `num_older_than`: counts the listed patients whose age is strictly above `age`. */
  method NumOlderThan(db: Db, age: real, now: Timestamp) returns (count: nat)
    ensures count == CountOlder(db, PatientIds(db), age, now)
  {
    var pids := PatientIds(db);
    count := 0;
    for i := 0 to |pids|
      invariant count == CountOlder(db, pids[..i], age, now)
    {
      assert pids[..i + 1][..i] == pids[..i];
      var a := Age(db, pids[i], now);
      if a.Ok? && a.value > age {
        count := count + 1;
      }
    }
    assert pids[..|pids|] == pids;
  }

  // ---------------------------------------------------------------------
  // sick_patients

  /**
   * `sick_patients` over the ids `pids`, in order: the ids for which
   * `is_sick` is true, unless some `is_sick` raises, in which case the first
   * such error propagates.
   */
  function SickSpec(db: Db, pids: seq<int>, aid: int, lab: string, gtLt: string, value: real): (r: Result<set<int>, QueryError>)
    ensures r.Ok? ==> forall p :: p in r.value ==> p in pids
  {
    if pids == [] then Ok({})
    else
      var i := |pids| - 1;
      assert forall p :: p in pids[..i] ==> p in pids;
      match SickSpec(db, pids[..i], aid, lab, gtLt, value)
      case Err(e) => Err(e)
      case Ok(found) =>
        match IsSick(db, pids[i], aid, lab, gtLt, value)
        case Err(e) => Err(e)
        case Ok(sick) => Ok(if sick then found + {pids[i]} else found)
  }

  /** Scanning one more id adds it to the result exactly when `is_sick` holds for it. */
  lemma SickSpecAppend(db: Db, pids: seq<int>, p: int, aid: int, lab: string, gtLt: string, value: real, found: set<int>, sick: bool)
    requires SickSpec(db, pids, aid, lab, gtLt, value) == Ok(found)
    requires IsSick(db, p, aid, lab, gtLt, value) == Ok(sick)
    ensures SickSpec(db, pids + [p], aid, lab, gtLt, value) == Ok(if sick then found + {p} else found)
  {
    assert (pids + [p])[..|pids|] == pids;
  }

  /** Once a prefix of the ids has raised, the whole scan raises the same error. */
  lemma {:induction false} SickErrorSticks(db: Db, pids: seq<int>, n: nat, aid: int, lab: string, gtLt: string, value: real)
    requires n <= |pids|
    requires SickSpec(db, pids[..n], aid, lab, gtLt, value).Err?
    ensures SickSpec(db, pids, aid, lab, gtLt, value) == SickSpec(db, pids[..n], aid, lab, gtLt, value)
    decreases |pids| - n
  {
    if n < |pids| {
      var next := pids[..n + 1];
      assert next[..n] == pids[..n];
      SickErrorSticks(db, pids, n + 1, aid, lab, gtLt, value);
    } else {
      assert pids[..n] == pids;
    }
  }

  /** `sick_patients`: the set of patient ids that are sick; any error from `is_sick` aborts the whole query. */
  method SickPatients(db: Db, aid: int, lab: string, gtLt: string, value: real) returns (r: Result<set<int>, QueryError>)
    ensures r == SickSpec(db, PatientIds(db), aid, lab, gtLt, value)
  {
    var pids := PatientIds(db);
    var output: set<int> := {};
    for i := 0 to |pids|
      invariant SickSpec(db, pids[..i], aid, lab, gtLt, value) == Ok(output)
    {
      assert pids[..i + 1][..i] == pids[..i];
      var sick := IsSick(db, pids[i], aid, lab, gtLt, value);
      if sick.Err? {
        SickErrorSticks(db, pids, i + 1, aid, lab, gtLt, value);
        return Err(sick.error);
      }
      if sick.value {
        output := output + {pids[i]};
      }
    }
    assert pids[..|pids|] == pids;
    r := Ok(output);
  }

  // ---------------------------------------------------------------------
  // What the queries promise

  /** Every patient id appears once in the patients table. */
  predicate UniquePids(db: Db)
  {
    forall a, b :: 0 <= a < b < |db.patients| ==> db.patients[a].pid != db.patients[b].pid
  }

  /** A patient's age never decreases as `now` moves forward. */
  lemma AgeMonotone(db: Db, pid: int, now1: Timestamp, now2: Timestamp)
    requires now1 <= now2
    ensures Age(db, pid, now1).Ok? <==> Age(db, pid, now2).Ok?
    ensures Age(db, pid, now1).Ok? ==> Age(db, pid, now1).value <= Age(db, pid, now2).value
  {
    var k := FindPatient(db.patients, pid);
    if k < |db.patients| {
      DaysBetweenMonotone(db.patients[k].dob, now1, now2);
    }
  }

  /** `is_sick` raises "this patient has not taken" exactly when no lab row matches, whatever the comparator. */
  lemma IsSickMissingLab(db: Db, pid: int, aid: int, labName: string, gtLt: string, value: real)
    ensures IsSick(db, pid, aid, labName, gtLt, value) == Err(LabNotTaken) <==>
      forall k :: 0 <= k < |db.labs| ==> !LabMatches(db.labs[k], pid, aid, labName)
  {
  }

  /**
   * With a matching row, `is_sick` compares the FIRST matching row's value:
   * strictly greater for ">", strictly less for "<", and any other
   * comparator raises "incorrect string for gt_lt".
   */
  lemma IsSickFirstRow(db: Db, k: nat, aid: int, labName: string, value: real)
    requires k < |db.labs| && LabMatches(db.labs[k], db.labs[k].pid, aid, labName)
    requires forall m :: 0 <= m < k ==> !LabMatches(db.labs[m], db.labs[k].pid, aid, labName)
    ensures IsSick(db, db.labs[k].pid, aid, labName, ">", value) == Ok(db.labs[k].value > value)
    ensures IsSick(db, db.labs[k].pid, aid, labName, "<", value) == Ok(db.labs[k].value < value)
    ensures forall gtLt :: gtLt != ">" && gtLt != "<" ==>
      IsSick(db, db.labs[k].pid, aid, labName, gtLt, value) == Err(BadComparator(gtLt))
  {
    var pid := db.labs[k].pid;
    var j := FindLab(db.labs, pid, aid, labName);
    assert j <= k;
    assert j == k;
  }

  lemma {:induction false} FindLabAppend(labs: seq<LabRow>, more: seq<LabRow>, pid: int, aid: int, name: string)
    requires FindLab(labs, pid, aid, name) < |labs|
    ensures FindLab(labs + more, pid, aid, name) == FindLab(labs, pid, aid, name)
  {
    if !LabMatches(labs[0], pid, aid, name) {
      assert (labs + more)[1..] == labs[1..] + more;
      FindLabAppend(labs[1..], more, pid, aid, name);
    }
  }

  /** Only the first matching row counts: lab rows added after it never change `is_sick`. */
  lemma IsSickIgnoresLaterRows(db: Db, more: seq<LabRow>, pid: int, aid: int, labName: string, gtLt: string, value: real)
    requires exists k :: 0 <= k < |db.labs| && LabMatches(db.labs[k], pid, aid, labName)
    ensures IsSick(Db(db.patients, db.labs + more), pid, aid, labName, gtLt, value) == IsSick(db, pid, aid, labName, gtLt, value)
  {
    FindLabAppend(db.labs, more, pid, aid, labName);
    var k := FindLab(db.labs, pid, aid, labName);
    assert (db.labs + more)[k] == db.labs[k];
  }

  /** The age lookup inside `num_older_than` never raises: every listed id has a patient row. */
  lemma ListedPatientsHaveAge(db: Db, now: Timestamp)
    ensures forall k :: 0 <= k < |db.patients| ==> Age(db, PatientIds(db)[k], now).Ok?
  {
    forall k | 0 <= k < |db.patients| ensures Age(db, PatientIds(db)[k], now).Ok? {
      assert db.patients[k].pid == PatientIds(db)[k];
    }
  }

  /** Raising the threshold never raises the count. */
  lemma {:induction false} CountOlderAntitone(db: Db, pids: seq<int>, age1: real, age2: real, now: Timestamp)
    requires age1 <= age2
    ensures CountOlder(db, pids, age2, now) <= CountOlder(db, pids, age1, now)
    decreases |pids|
  {
    if pids != [] {
      CountOlderAntitone(db, pids[..|pids| - 1], age1, age2, now);
    }
  }

  /** The count is everything exactly when every id passes, and nothing exactly when none does. */
  lemma CountOlderExtremes(db: Db, pids: seq<int>, age: real, now: Timestamp)
    ensures CountOlder(db, pids, age, now) == |pids| <==> forall k :: 0 <= k < |pids| ==> IsOlder(db, pids[k], age, now)
    ensures CountOlder(db, pids, age, now) == 0 <==> forall k :: 0 <= k < |pids| ==> !IsOlder(db, pids[k], age, now)
  {
    CountOlderAll(db, pids, age, now);
    CountOlderNone(db, pids, age, now);
  }

  lemma {:induction false} CountOlderAll(db: Db, pids: seq<int>, age: real, now: Timestamp)
    ensures CountOlder(db, pids, age, now) == |pids| <==> forall k :: 0 <= k < |pids| ==> IsOlder(db, pids[k], age, now)
    decreases |pids|
  {
    if pids != [] {
      var i := |pids| - 1;
      var init := pids[..i];
      CountOlderAll(db, init, age, now);
      assert forall k :: 0 <= k < i ==> init[k] == pids[k];
    }
  }

  lemma {:induction false} CountOlderNone(db: Db, pids: seq<int>, age: real, now: Timestamp)
    ensures CountOlder(db, pids, age, now) == 0 <==> forall k :: 0 <= k < |pids| ==> !IsOlder(db, pids[k], age, now)
    decreases |pids|
  {
    if pids != [] {
      var i := |pids| - 1;
      var init := pids[..i];
      CountOlderNone(db, init, age, now);
      assert forall k :: 0 <= k < i ==> init[k] == pids[k];
    }
  }

  /** How many of `rows` are strictly older than `age` by their own date of birth. */
  function OwnOlder(rows: seq<PatientRow>, age: real, now: Timestamp): nat
  {
    if rows == [] then 0
    else
      var i := |rows| - 1;
      OwnOlder(rows[..i], age, now) + (if Years(DaysBetween(rows[i].dob, now)) > age then 1 else 0)
  }

  /** With unique patient ids, the age `age` reports for a row's id is that row's own age. */
  lemma OwnAge(db: Db, n: nat, now: Timestamp)
    requires UniquePids(db) && n < |db.patients|
    ensures Age(db, db.patients[n].pid, now) == Ok(Years(DaysBetween(db.patients[n].dob, now)))
  {
    var k := FindPatient(db.patients, db.patients[n].pid);
    assert k == n;
  }

  /** One more row adds one to the count exactly when that row's own age is above the threshold. */
  lemma CountOlderStep(db: Db, n: nat, age: real, now: Timestamp)
    requires UniquePids(db) && n < |db.patients|
    ensures CountOlder(db, PatientIds(db)[..n + 1], age, now) ==
      CountOlder(db, PatientIds(db)[..n], age, now) + (if Years(DaysBetween(db.patients[n].dob, now)) > age then 1 else 0)
  {
    var ids := PatientIds(db);
    OwnAge(db, n, now);
    assert ids[..n + 1][..n] == ids[..n];
  }

  /**
   * With unique patient ids, `num_older_than` counts the patient rows whose
   * own age is strictly above the threshold.
   */
  lemma NumOlderThanCountsRows(db: Db, age: real, now: Timestamp)
    requires UniquePids(db)
    ensures CountOlder(db, PatientIds(db), age, now) == OwnOlder(db.patients, age, now)
  {
    var ids := PatientIds(db);
    for n := 0 to |db.patients|
      invariant CountOlder(db, ids[..n], age, now) == OwnOlder(db.patients[..n], age, now)
    {
      CountOlderStep(db, n, age, now);
      assert db.patients[..n + 1][..n] == db.patients[..n];
    }
    assert ids[..|ids|] == ids;
    assert db.patients[..|db.patients|] == db.patients;
  }

  /**
   * `sick_patients` succeeds exactly when `is_sick` succeeds for every id, and
   * then returns exactly the ids for which it is true.
   */
  lemma SickSpecSucceeds(db: Db, pids: seq<int>, aid: int, lab: string, gtLt: string, value: real)
    ensures SickSpec(db, pids, aid, lab, gtLt, value).Ok? <==>
      forall k :: 0 <= k < |pids| ==> IsSick(db, pids[k], aid, lab, gtLt, value).Ok?
    ensures SickSpec(db, pids, aid, lab, gtLt, value).Ok? ==>
      SickSpec(db, pids, aid, lab, gtLt, value).value == set p | p in pids && IsSick(db, p, aid, lab, gtLt, value) == Ok(true)
  {
    SickSpecOk(db, pids, aid, lab, gtLt, value);
    if SickSpec(db, pids, aid, lab, gtLt, value).Ok? {
      SickSpecValue(db, pids, aid, lab, gtLt, value);
    }
  }

  lemma {:induction false} SickSpecOk(db: Db, pids: seq<int>, aid: int, lab: string, gtLt: string, value: real)
    ensures SickSpec(db, pids, aid, lab, gtLt, value).Ok? <==>
      forall k :: 0 <= k < |pids| ==> IsSick(db, pids[k], aid, lab, gtLt, value).Ok?
    decreases |pids|
  {
    if pids != [] {
      var i := |pids| - 1;
      var init := pids[..i];
      SickSpecOk(db, init, aid, lab, gtLt, value);
      assert forall k :: 0 <= k < i ==> init[k] == pids[k];
    }
  }

  lemma {:induction false} SickSpecValue(db: Db, pids: seq<int>, aid: int, lab: string, gtLt: string, value: real)
    requires SickSpec(db, pids, aid, lab, gtLt, value).Ok?
    ensures SickSpec(db, pids, aid, lab, gtLt, value).value == set p | p in pids && IsSick(db, p, aid, lab, gtLt, value) == Ok(true)
    decreases |pids|
  {
    if pids != [] {
      var i := |pids| - 1;
      var init := pids[..i];
      var last := pids[i];
      SickSpecValue(db, init, aid, lab, gtLt, value);
      assert pids == init + [last];
    }
  }

  /** On success the result is a set of patient ids from the table. */
  lemma SickPatientsAreListed(db: Db, aid: int, lab: string, gtLt: string, value: real)
    requires SickSpec(db, PatientIds(db), aid, lab, gtLt, value).Ok?
    ensures forall p :: p in SickSpec(db, PatientIds(db), aid, lab, gtLt, value).value ==>
      exists k :: 0 <= k < |db.patients| && db.patients[k].pid == p
  {
    SickSpecSucceeds(db, PatientIds(db), aid, lab, gtLt, value);
  }

  /** The first id whose `is_sick` raises decides the error of the whole query; nothing is returned. */
  lemma {:induction false} SickSpecFirstError(db: Db, pids: seq<int>, n: nat, aid: int, lab: string, gtLt: string, value: real)
    requires n < |pids| && IsSick(db, pids[n], aid, lab, gtLt, value).Err?
    requires forall m :: 0 <= m < n ==> IsSick(db, pids[m], aid, lab, gtLt, value).Ok?
    ensures SickSpec(db, pids, aid, lab, gtLt, value) == Err(IsSick(db, pids[n], aid, lab, gtLt, value).error)
  {
    var init := pids[..n];
    SickSpecSucceeds(db, init, aid, lab, gtLt, value);
    assert pids[..n + 1][..n] == init;
    SickErrorSticks(db, pids, n + 1, aid, lab, gtLt, value);
  }

  /**
   * A comparator other than ">" and "<" makes `sick_patients` raise for any
   * non-empty patients table, but the error is the first patient's: a
   * missing lab is reported instead of the comparator when that patient has
   * no matching row. With no patients the query returns the empty set.
   */
  lemma SickPatientsBadComparator(db: Db, aid: int, lab: string, gtLt: string, value: real)
    requires gtLt != ">" && gtLt != "<"
    ensures |db.patients| == 0 ==> SickSpec(db, PatientIds(db), aid, lab, gtLt, value) == Ok({})
    ensures |db.patients| > 0 ==>
      (SickSpec(db, PatientIds(db), aid, lab, gtLt, value) ==
       Err(if FindLab(db.labs, db.patients[0].pid, aid, lab) < |db.labs| then BadComparator(gtLt) else LabNotTaken))
  {
    var pids := PatientIds(db);
    if |pids| > 0 {
      SickSpecFirstError(db, pids, 0, aid, lab, gtLt, value);
    }
  }

  // ---------------------------------------------------------------------
  // Age at first admission: as written and as intended

  /** Age at first admission as the name promises: the patient's age on the date of the earliest first-admission lab. */
  function AgeAtFirstAdmissionFromBirth(db: Db, pid: int): (r: Result<real, QueryError>)
    ensures r.Err? <==> ((forall j :: 0 <= j < |db.labs| ==> !FirstAdmissionLab(db.labs[j], pid))
      || (forall k :: 0 <= k < |db.patients| ==> db.patients[k].pid != pid))
  {
    var dates := FirstAdmissionDates(db.labs, pid);
    if |dates| == 0 then Err(NoLabYet(pid))
    else Age(db, pid, Min(dates))
  }

  /**
   * The corrected value is the age reached at the first admission: it is
   * measured from the date of birth to the earliest admission-1 lab date, and
   * it does not depend on `now`.
   */
  lemma AgeAtFirstAdmissionFromBirthSpec(db: Db, k: nat, pid: int)
    requires k < |db.patients| && db.patients[k].pid == pid
    requires forall m :: 0 <= m < k ==> db.patients[m].pid != pid
    ensures AgeAtFirstAdmissionFromBirth(db, pid).Err? <==>
      forall j :: 0 <= j < |db.labs| ==> !FirstAdmissionLab(db.labs[j], pid)
    ensures AgeAtFirstAdmissionFromBirth(db, pid).Ok? ==>
      exists j :: 0 <= j < |db.labs| && FirstAdmissionLab(db.labs[j], pid)
        && AgeAtFirstAdmissionFromBirth(db, pid).value == Years(DaysBetween(db.patients[k].dob, db.labs[j].date))
        && forall m :: 0 <= m < |db.labs| && FirstAdmissionLab(db.labs[m], pid) ==> db.labs[j].date <= db.labs[m].date
  {
    var dates := FirstAdmissionDates(db.labs, pid);
    if |dates| > 0 {
      var first := Min(dates);
      var j :| 0 <= j < |db.labs| && FirstAdmissionLab(db.labs[j], pid) && db.labs[j].date == first;
      forall m | 0 <= m < |db.labs| && FirstAdmissionLab(db.labs[m], pid) ensures first <= db.labs[m].date {
        assert db.labs[m].date in dates;
      }
      assert FindPatient(db.patients, pid) == k;
    }
  }

  /**
   * What the code computes instead: the time elapsed since the first
   * admission. Together with the intended age at first admission it makes
   * up the current age, give or take the one day lost to rounding each part
   * down.
   */
  lemma AgeSplitsAtFirstAdmission(db: Db, pid: int, now: Timestamp)
    requires Age(db, pid, now).Ok? && AgeAtFirstAdmission(db, pid, now).Ok?
    ensures AgeAtFirstAdmissionFromBirth(db, pid).Ok?
    ensures var sinceAdmission := AgeAtFirstAdmission(db, pid, now).value;
      var atAdmission := AgeAtFirstAdmissionFromBirth(db, pid).value;
      var current := Age(db, pid, now).value;
      sinceAdmission + atAdmission <= current <= sinceAdmission + atAdmission + Years(1)
  {
    var dates := FirstAdmissionDates(db.labs, pid);
    var first := Min(dates);
    var dob := db.patients[FindPatient(db.patients, pid)].dob;
    var d1, d2, d := DaysBetween(dob, first), DaysBetween(first, now), DaysBetween(dob, now);
    assert d1 + d2 <= d <= d1 + d2 + 1 by {
      assert (d1 + d2) * MicrosPerDay <= now - dob < (d1 + d2 + 2) * MicrosPerDay;
    }
  }

  /**
   * A patient born at time 0 whose only first-admission lab comes 21917 days
   * later (the 1947-12-28 birth and 2007-12-30 lab of patient 1 in the
   * fixture), asked 6900 days after that lab: the code answers about 18.9
   * years, the age at that admission is about 60.
   */
  lemma AgeAtFirstAdmissionCounterexample()
    ensures var db := Db([PatientRow(1, "Male", 0, "White")],
                         [LabRow(1, 1, "lab_a", 1.0, 21917 * MicrosPerDay)]);
      AgeAtFirstAdmission(db, 1, 28817 * MicrosPerDay) == Ok(Years(6900))
      && AgeAtFirstAdmissionFromBirth(db, 1) == Ok(Years(21917))
      && Years(6900) < 19.0 && Years(21917) > 60.0
  {
    var db := Db([PatientRow(1, "Male", 0, "White")], [LabRow(1, 1, "lab_a", 1.0, 21917 * MicrosPerDay)]);
    assert FirstAdmissionDates(db.labs, 1) == [21917 * MicrosPerDay];
  }

  // ---------------------------------------------------------------------
  // The fixture of the test module, as tables

  /** Patients 1, 2, 3 and 99 of the test fixture (dates set to 0: these queries do not read them). */
  function FixturePatients(): seq<PatientRow>
  {
    [PatientRow(1, "Male", 0, "White"), PatientRow(2, "Female", 0, "Afican American"),
     PatientRow(3, "Male", 0, "White"), PatientRow(99, "Female", 0, "Asian")]
  }

  /** The six fixture labs, all at admission 1; patient 99 has none. */
  function FixtureLabs(): seq<LabRow>
  {
    [LabRow(1, 1, "lab_a", 1.0, 0), LabRow(1, 1, "lab_b", 0.5, 0), LabRow(1, 1, "lab_c", 10.0, 0),
     LabRow(2, 1, "lab_a", 2.0, 0), LabRow(2, 1, "lab_b", 0.6, 0), LabRow(3, 1, "lab_a", 2.0, 0)]
  }

  /** Where `is_sick` finds each fixture patient's lab_a at admission 1: rows 0, 3 and 5, and none for patient 99. */
  lemma FixtureLabLookups()
    ensures FindLab(FixtureLabs(), 1, 1, "lab_a") == 0
    ensures FindLab(FixtureLabs(), 2, 1, "lab_a") == 3
    ensures FindLab(FixtureLabs(), 3, 1, "lab_a") == 5
    ensures FindLab(FixtureLabs(), 99, 1, "lab_a") == |FixtureLabs()|
  {
    var labs := FixtureLabs();
    assert LabMatches(labs[3], 2, 1, "lab_a") && LabMatches(labs[5], 3, 1, "lab_a");
  }

  /** `select pid from patients` on the fixture: 1, 2, 3, 99, and 1, 2, 3 without the last patient. */
  lemma FixturePatientIds(labs: seq<LabRow>)
    ensures PatientIds(Db(FixturePatients(), labs)) == [1, 2, 3, 99]
    ensures PatientIds(Db(FixturePatients()[..3], labs)) == [1, 2, 3]
  {
  }

  /** The answers of `is_sick("lab_a", ">", 1)` for the fixture patients, whatever the patients table holds. */
  lemma FixtureIsSick(patients: seq<PatientRow>)
    ensures IsSick(Db(patients, FixtureLabs()), 1, 1, "lab_a", ">", 1.0) == Ok(false)
    ensures IsSick(Db(patients, FixtureLabs()), 2, 1, "lab_a", ">", 1.0) == Ok(true)
    ensures IsSick(Db(patients, FixtureLabs()), 3, 1, "lab_a", ">", 1.0) == Ok(true)
    ensures IsSick(Db(patients, FixtureLabs()), 99, 1, "lab_a", ">", 1.0) == Err(LabNotTaken)
  {
    FixtureLabLookups();
  }

  /**
   * The scan of `sick_patients` over ids 1, 2, 3 in any database that answers
   * `is_sick` as the fixture does.
   */
  lemma FixtureScan(db: Db)
    requires IsSick(db, 1, 1, "lab_a", ">", 1.0) == Ok(false)
    requires IsSick(db, 2, 1, "lab_a", ">", 1.0) == Ok(true)
    requires IsSick(db, 3, 1, "lab_a", ">", 1.0) == Ok(true)
    ensures SickSpec(db, [1, 2, 3], 1, "lab_a", ">", 1.0) == Ok({2, 3})
  {
    var none: set<int> := {};
    SickSpecAppend(db, [], 1, 1, "lab_a", ">", 1.0, none, false);
    assert [] + [1] == [1];
    SickSpecAppend(db, [1], 2, 1, "lab_a", ">", 1.0, none, true);
    assert [1] + [2] == [1, 2];
    SickSpecAppend(db, [1, 2], 3, 1, "lab_a", ">", 1.0, none + {2}, true);
    assert [1, 2] + [3] == [1, 2, 3];
    assert none + {2} + {3} == {2, 3};
  }

  /**
   * `sick_patients` with "lab_a", ">" and 1 over patients 1, 2, 3 gives
   * {2, 3}: a value of 1 is not strictly above 1.
   */
  lemma FixtureSickPatients()
    ensures var db3 := Db(FixturePatients()[..3], FixtureLabs());
      SickSpec(db3, PatientIds(db3), 1, "lab_a", ">", 1.0) == Ok({2, 3})
  {
    var db3 := Db(FixturePatients()[..3], FixtureLabs());
    FixtureIsSick(db3.patients);
    FixtureScan(db3);
    FixturePatientIds(FixtureLabs());
  }

  /**
   * With patient 99, who has no lab_a, the same query raises instead of
   * skipping that patient.
   */
  lemma FixtureSickPatientsRaises()
    ensures var db := Db(FixturePatients(), FixtureLabs());
      SickSpec(db, PatientIds(db), 1, "lab_a", ">", 1.0) == Err(LabNotTaken)
  {
    var db := Db(FixturePatients(), FixtureLabs());
    FixtureIsSick(db.patients);
    FixtureScanRaises(db);
    FixturePatientIds(FixtureLabs());
  }

  /** The scan over ids 1, 2, 3, 99 when the last of them has no matching lab. */
  lemma FixtureScanRaises(db: Db)
    requires IsSick(db, 1, 1, "lab_a", ">", 1.0) == Ok(false)
    requires IsSick(db, 2, 1, "lab_a", ">", 1.0) == Ok(true)
    requires IsSick(db, 3, 1, "lab_a", ">", 1.0) == Ok(true)
    requires IsSick(db, 99, 1, "lab_a", ">", 1.0) == Err(LabNotTaken)
    ensures SickSpec(db, [1, 2, 3, 99], 1, "lab_a", ">", 1.0) == Err(LabNotTaken)
  {
    FixtureScan(db);
    var pids: seq<int> := [1, 2, 3, 99];
    assert pids[..3] == [1, 2, 3];
  }
}
