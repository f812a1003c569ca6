/** Release evidence: one suite run, the record it writes, and the checks that accept the record. */
module ReleaseEvidence {
  import opened Text
  import opened ReleaseSuite

  datatype Attempt = Attempt(number: int, status: Status, cases: seq<Case>)

  datatype Record = Record(
    status: Status, selected: seq<string>, observed: seq<Case>, attempts: seq<Attempt>, retryCount: int)

  function Ids(cases: seq<Case>): (r: seq<string>)
    ensures |r| == |cases| && forall i :: 0 <= i < |cases| ==> r[i] == cases[i].id
  {
    seq(|cases|, i requires 0 <= i < |cases| => cases[i].id)
  }

  predicate NoRepeats(s: seq<string>) {
    forall i, j :: 0 <= i < j < |s| ==> s[i] != s[j]
  }

  predicate SameElements(a: seq<string>, b: seq<string>) {
    (forall x :: x in a ==> x in b) && (forall x :: x in b ==> x in a)
  }

  predicate Passing(cases: seq<Case>) {
    forall c :: c in cases ==> c.status == Passed
  }

  // -- The three checks of a record -----------------------------------------

  predicate CaseEvidence(r: Record, required: seq<string>) {
    required == [] ||
    (&& r.selected == required
     && (r.status == Passed ==> Passing(r.observed))
     && NoRepeats(Ids(r.observed)) && SameElements(Ids(r.observed), required))
  }

  predicate AttemptAccepted(r: Record, a: Attempt, required: seq<string>) {
    && (a.status == Passed || a.status == Failed)
    && (r.status == Passed ==> a.status == Passed && Passing(a.cases))
    && (required != [] ==> SameElements(Ids(a.cases), required))
  }

  predicate AttemptsAccepted(r: Record, required: seq<string>) {
    && r.attempts != []
    && (forall i :: 0 <= i < |r.attempts| ==> AttemptAccepted(r, r.attempts[i], required) && r.attempts[i].number == i + 1)
    && r.retryCount == |r.attempts| - 1
  }

  predicate CaseLog(r: Record, required: seq<string>, log: seq<LogLine>) {
    required == [] ||
    (&& WellFormed(log, required)
     && var matrix := Attempts(log, required);
        && matrix != []
        && |r.attempts| == |matrix| && (forall i :: 0 <= i < |matrix| ==> r.attempts[i].cases == matrix[i])
        && r.observed == matrix[|matrix| - 1])
  }

  predicate Accepted(r: Record, required: seq<string>, log: seq<LogLine>) {
    CaseEvidence(r, required) && AttemptsAccepted(r, required) && CaseLog(r, required, log)
  }

  method ValidateCaseEvidence(r: Record, required: seq<string>) returns (ok: bool)
    ensures ok <==> CaseEvidence(r, required)
    ensures ok <==>
      || required == []
      || (&& r.selected == required && NoRepeats(Ids(r.observed))
          && (r.status == Passed ==> forall c :: c in r.observed ==> c.status == Passed)
          && forall id :: id in Ids(r.observed) <==> id in required)
  {
    if required == [] {
      return true;
    }
    if r.selected != required {
      return false;
    }
    var observedIds: seq<string> := [];
    for i := 0 to |r.observed|
      invariant observedIds == Ids(r.observed[..i])
      invariant r.status == Passed ==> Passing(r.observed[..i])
    {
      assert r.observed[..i + 1] == r.observed[..i] + [r.observed[i]];
      observedIds := observedIds + [r.observed[i].id];
      if r.observed[i].status != Passed && r.status == Passed {
        assert r.observed[i] in r.observed;
        return false;
      }
    }
    assert r.observed[..|r.observed|] == r.observed;
    return NoRepeats(observedIds) && SameElements(observedIds, required);
  }

  method ValidateAttempts(r: Record, required: seq<string>) returns (ok: bool)
    ensures ok <==> AttemptsAccepted(r, required)
    ensures ok <==>
      && r.attempts != [] && r.retryCount == |r.attempts| - 1
      && forall i :: 0 <= i < |r.attempts| ==>
           && r.attempts[i].number == 1 + i && (r.attempts[i].status == Passed || r.attempts[i].status == Failed)
           && (r.status == Passed ==> r.attempts[i].status == Passed)
           && (r.status == Passed ==> forall c :: c in r.attempts[i].cases ==> c.status == Passed)
           && (required != [] ==> forall id :: id in Ids(r.attempts[i].cases) <==> id in required)
  {
    if r.attempts == [] {
      return false;
    }
    var indexes: seq<int> := [];
    for i := 0 to |r.attempts|
      invariant |indexes| == i && forall k :: 0 <= k < i ==> indexes[k] == r.attempts[k].number
      invariant forall k :: 0 <= k < i ==> AttemptAccepted(r, r.attempts[k], required)
    {
      var a := r.attempts[i];
      indexes := indexes + [a.number];
      if a.status != Passed && a.status != Failed {
        return false;
      }
      if a.status != Passed && r.status == Passed {
        return false;
      }
      if required != [] && !SameElements(Ids(a.cases), required) {
        return false;
      }
      if r.status == Passed && exists c :: c in a.cases && c.status != Passed {
        return false;
      }
    }
    if exists k :: 0 <= k < |indexes| && indexes[k] != k + 1 {
      return false;
    }
    return r.retryCount == |r.attempts| - 1;
  }

  method ValidateCaseLog(r: Record, required: seq<string>, log: seq<LogLine>) returns (ok: bool)
    ensures ok <==> CaseLog(r, required, log)
    ensures ok <==>
      || required == []
      || (&& WellFormed(log, required) && Attempts(log, required) != [] && |r.attempts| == |Attempts(log, required)|
          && (forall i :: 0 <= i < |r.attempts| ==> r.attempts[i].cases == Attempts(log, required)[i])
          && r.observed == r.attempts[|r.attempts| - 1].cases)
  {
    if required == [] {
      return true;
    }
    var m := MachineCaseAttempts(log, required);
    if m.None? || m.value == [] || |r.attempts| != |m.value| {
      return false;
    }
    if exists i :: 0 <= i < |m.value| && r.attempts[i].cases != m.value[i] {
      return false;
    }
    return r.observed == m.value[|m.value| - 1];
  }

  // -- What acceptance means ------------------------------------------------

  /** Accepted passing evidence: the log itself shows every required case passing, equally often, without one failure. */
  lemma AcceptedPassIsGenuine(r: Record, required: seq<string>, log: seq<LogLine>)
    requires required != [] && r.status == Passed && Accepted(r, required, log)
    ensures AllRequiredPassed(log, required) && OnlyOk(log, required)
  {
    var matrix: seq<seq<Case>> := Attempts(log, required);
    forall i, j | 0 <= i < |matrix| && 0 <= j < |matrix[i]| ensures matrix[i][j].status == Passed {
      assert AttemptAccepted(r, r.attempts[i], required);
      assert matrix[i][j] in r.attempts[i].cases;
    }
    MatrixPassesIff(log, required);
    PassedMeansOk(log, required);
  }

  /** Attempt i of a record: its number counts from one, and in a passed record it passed with all its cases. */
  predicate AttemptFits(r: Record, i: nat, row: seq<Case>)
    requires i < |r.attempts|
  {
    && r.attempts[i].number == 1 + i && r.attempts[i].cases == row
    && (r.attempts[i].status == Failed || r.attempts[i].status == Passed)
    && (r.status == Passed ==> r.attempts[i].status == Passed && forall c :: c in row ==> c.status == Passed)
  }

  lemma RowIds(log: seq<LogLine>, required: seq<string>, i: nat)
    requires i < |Attempts(log, required)|
    ensures var ids := Ids(Attempts(log, required)[i]); NoRepeats(ids) && SameElements(ids, required)
  {
    DistinctIsSame(required);
    assert Ids(Attempts(log, required)[i]) == Distinct(required);
  }

  /**
   With required cases, an accepted record is what the log says: the selection, one
   attempt per row of the matrix, numbered from one, the last row as observed, and
   the number of retries. Only the statuses of a failed record are its own.
   */
  lemma AcceptedIff(r: Record, required: seq<string>, log: seq<LogLine>)
    requires required != []
    ensures Accepted(r, required, log) <==>
      && WellFormed(log, required) && r.selected == required
      && var rows := Attempts(log, required);
         && rows != [] && r.observed == rows[|rows| - 1] && |r.attempts| == |rows| && r.retryCount == |rows| - 1
         && forall i :: 0 <= i < |rows| ==> AttemptFits(r, i, rows[i])
  {
    var rows := Attempts(log, required);
    if rows != [] && |r.attempts| == |rows| {
      RowIds(log, required, |rows| - 1);
      forall i | 0 <= i < |rows| && r.attempts[i].cases == rows[i]
        ensures AttemptFits(r, i, rows[i]) <==> AttemptAccepted(r, r.attempts[i], required) && r.attempts[i].number == i + 1
      {
        RowIds(log, required, i);
      }
      if forall i :: 0 <= i < |rows| ==> AttemptFits(r, i, rows[i]) {
        assert forall i :: 0 <= i < |rows| ==> r.attempts[i].cases == rows[i];
        assert AttemptFits(r, |rows| - 1, rows[|rows| - 1]);
      }
    }
  }

  /** So a passed record is determined by the log. */
  lemma AcceptedPassIsUnique(r: Record, q: Record, required: seq<string>, log: seq<LogLine>)
    requires required != [] && r.status == Passed && q.status == Passed
    requires Accepted(r, required, log) && Accepted(q, required, log)
    ensures r == q
  {
    AcceptedIff(r, required, log);
    AcceptedIff(q, required, log);
    var rows := Attempts(log, required);
    forall i | 0 <= i < |rows| ensures r.attempts[i] == q.attempts[i] {
      assert AttemptFits(r, i, rows[i]) && AttemptFits(q, i, rows[i]);
    }
  }

  // -- The record a run writes ----------------------------------------------

  function MissingCases(required: seq<string>): seq<Case> {
    seq(|required|, i requires 0 <= i < |required| => Case(required[i], Missing))
  }

  function RecordOf(required: seq<string>, matrix: seq<seq<Case>>, status: Status): Record {
    var rows: seq<seq<Case>> := if matrix == [] then [[]] else matrix;
    Record(status, required,
           if matrix == [] then MissingCases(required) else matrix[|matrix| - 1],
           seq(|rows|, i requires 0 <= i < |rows| =>
             Attempt(i + 1, if Passing(rows[i]) then Passed else Failed, rows[i])),
           |rows| - 1)
  }

  /**
   Every row becomes an attempt, numbered from one and failed if one of its cases
   did not pass; without a row there is one empty attempt, and every required case is
   observed as missing.
   */
  lemma RecordIs(required: seq<string>, matrix: seq<seq<Case>>, status: Status)
    ensures var r := RecordOf(required, matrix, status);
      && r.status == status && r.selected == required && r.retryCount == |r.attempts| - 1
      && (forall i :: 0 <= i < |r.attempts| ==>
            && r.attempts[i].number == 1 + i
            && r.attempts[i].status == if exists c :: c in r.attempts[i].cases && c.status != Passed then Failed else Passed)
    ensures matrix != [] ==>
      var r := RecordOf(required, matrix, status);
      && |r.attempts| == |matrix| && r.observed == r.attempts[|matrix| - 1].cases
      && forall i :: 0 <= i < |matrix| ==> r.attempts[i].cases == matrix[i]
    ensures matrix == [] ==>
      var r := RecordOf(required, matrix, status);
      && |r.attempts| == 1 && r.attempts[0].cases == [] && Ids(r.observed) == required
      && forall c :: c in r.observed ==> c.status == Missing
  {
    var r := RecordOf(required, matrix, status);
    assert forall i :: 0 <= i < |r.attempts| ==>
      (Passing(r.attempts[i].cases) <==> !exists c :: c in r.attempts[i].cases && c.status != Passed);
  }

  /** The rows of a matrix list the required cases, each once. */
  lemma RowsListCases(log: seq<LogLine>, required: seq<string>, i: nat)
    requires NoRepeats(required) && i < |Attempts(log, required)|
    ensures Ids(Attempts(log, required)[i]) == required
  {
    DistinctOfUnique(required);
    assert |Attempts(log, required)[i]| == |required|;
  }

  lemma RowsAreAccepted(required: seq<string>, matrix: seq<seq<Case>>, status: Status)
    requires matrix != [] && NoRepeats(required)
    requires forall i :: 0 <= i < |matrix| ==> Ids(matrix[i]) == required
    requires status == Passed ==> forall i :: 0 <= i < |matrix| ==> Passing(matrix[i])
    ensures var r := RecordOf(required, matrix, status); CaseEvidence(r, required) && AttemptsAccepted(r, required)
  {
    var r := RecordOf(required, matrix, status);
    forall i | 0 <= i < |matrix| ensures AttemptAccepted(r, r.attempts[i], required) {
      assert r.attempts[i].cases == matrix[i];
    }
    assert r.observed == matrix[|matrix| - 1];
  }

  lemma NothingRequiredIsAccepted(matrix: seq<seq<Case>>, status: Status, log: seq<LogLine>)
    requires matrix == []
    ensures Accepted(RecordOf([], matrix, status), [], log)
  {
    var r := RecordOf([], matrix, status);
    var none: seq<Case> := [];
    assert Passing(none) && r.attempts[0].cases == none;
    assert AttemptAccepted(r, r.attempts[0], []);
  }

  /** The runner's own record is accepted exactly when some required case was seen in the log. */
  lemma RunnerRecordAcceptedIff(required: seq<string>, log: seq<LogLine>, status: Status)
    requires NoRepeats(required) && WellFormed(log, required)
    requires status == Passed && required != [] ==> AllRequiredPassed(log, required)
    ensures Accepted(RecordOf(required, Attempts(log, required), status), required, log)
       <==> required == [] || CountEvents(log, required) > 0
  {
    var matrix := Attempts(log, required);
    SeenIffRows(log, required);
    if required == [] {
      assert Distinct(required) == [] && Columns(log, required) == [];
      NothingRequiredIsAccepted(matrix, status, log);
    } else if matrix != [] {
      forall i | 0 <= i < |matrix|
        ensures Ids(matrix[i]) == required && (status == Passed ==> Passing(matrix[i]))
      {
        RowsListCases(log, required, i);
        if status == Passed { PassingRows(log, required, i); }
      }
      RowsAreAccepted(required, matrix, status);
      LogAgrees(required, log, status);
    }
  }

  lemma LogAgrees(required: seq<string>, log: seq<LogLine>, status: Status)
    requires WellFormed(log, required) && Attempts(log, required) != []
    ensures CaseLog(RecordOf(required, Attempts(log, required), status), required, log)
  {
    var matrix := Attempts(log, required);
    assert forall i :: 0 <= i < |matrix| ==> RecordOf(required, matrix, status).attempts[i].cases == matrix[i];
  }

  lemma PassingRows(log: seq<LogLine>, required: seq<string>, i: nat)
    requires required != [] && AllRequiredPassed(log, required) && i < |Attempts(log, required)|
    ensures Passing(Attempts(log, required)[i])
  {
    MatrixPassesIff(log, required);
  }

  lemma {:induction false} SeenIffRows(log: seq<LogLine>, required: seq<string>)
    ensures Attempts(log, required) != [] <==> CountEvents(log, required) > 0
  {
    NoEventIsLost(log, required);
    var ids, columns := Distinct(required), Columns(log, required);
    MaxLengthIsMax(columns);
    TotalIsZeroIff(log, required, ids);
    if MaxLength(columns) > 0 {
      var j :| 0 <= j < |columns| && |columns[j]| == MaxLength(columns);
      assert Statuses(log, required, ids[j]) == columns[j];
    } else {
      assert forall j :: 0 <= j < |ids| ==> Statuses(log, required, ids[j]) == columns[j];
    }
  }

  lemma {:induction false} TotalIsZeroIff(log: seq<LogLine>, required: seq<string>, ids: seq<string>)
    ensures TotalStatuses(log, required, ids) == 0 <==> forall j :: 0 <= j < |ids| ==> Statuses(log, required, ids[j]) == []
  {
    if ids != [] {
      TotalIsZeroIff(log, required, ids[1..]);
      assert forall j :: 1 <= j < |ids| ==> ids[j] == ids[1..][j - 1];
    }
  }

  // -- The whole run --------------------------------------------------------

  /** What a run needs besides the required cases to be a pass. */
  predicate GoodFacts(f: Facts) {
    && f.returnCode == 0
    && (f.kind == TestKind ==> f.executed > 0) && (f.kind == MeasurementKind ==> f.measured)
    && (f.needsPostgres ==> f.hasVersion) && (f.runtime ==> f.installations > 0 && f.allFresh)
  }

  /**
   From the log to the record: the run is refused when a required case repeats or
   cannot be compared; else it is a pass exactly when the facts are good and every
   required case passed, and its record is accepted exactly when some required case
   was seen, if there are any.
   */
  method RunSuite(required: seq<string>, log: seq<LogLine>, f: Facts) returns (r: Option<Record>)
    ensures r.None? <==> !NoRepeats(required) || !WellFormed(log, required)
    ensures r.Some? ==> (r.value.status == Passed <==> GoodFacts(f) && (required == [] || AllRequiredPassed(log, required)))
    ensures r.Some? && r.value.status == Passed && required != [] ==> OnlyOk(log, required)
    ensures r.Some? ==> r.value == RecordOf(required, Attempts(log, required), r.value.status)
    ensures r.Some? ==> (Accepted(r.value, required, log) <==> required == [] || CountEvents(log, required) > 0)
  {
    if !NoRepeats(required) {
      return None;
    }
    var matrix := MachineCaseAttempts(log, required);
    if matrix.None? {
      return None;
    }
    var status := DecideStatus(required, matrix.value, f);
    if required != [] {
      MatrixPassesIff(log, required);
      if status == Passed { PassedMeansOk(log, required); }
    }
    RunnerRecordAcceptedIff(required, log, status);
    return Some(RecordOf(required, matrix.value, status));
  }
}
