/**
 One release suite run: the matrix of case attempts read from its machine log and
 the decision that follows from it.
 */
module ReleaseSuite {
  import opened Text

  datatype Status = Passed | Failed | Skipped | Missing
  datatype Case = Case(id: string, status: Status)

  /** A decoded log line: a test message with its event word and test name, or anything else. */
  datatype LogLine = Other | TestMessage(event: string, name: string)

  const MACHINE_STATUS: map<string, Status> := map[
    "ok" := Passed, "failed" := Failed, "leaked" := Failed, "timeout" := Failed, "ignored" := Skipped
  ]

  // -- Matching a test name to a required case ------------------------------

  /** Start of the first "::" at or after i. */
  function FindColons(s: string, i: nat): (r: Option<nat>)
    ensures r.Some? ==> r.value + 2 <= |s|
    decreases |s| - i
  {
    if i >= |s| then None else if At(s, i, "::") then Some(i) else FindColons(s, i + 1)
  }

  /** `name.endswith(f"::{binary}${test_name}")` for the identity binary::test_name. */
  function NameSuffix(identity: string): Option<string> {
    var k := FindColons(identity, 0);
    if k.None? then None else Some("::" + identity[..k.value] + "$" + identity[k.value + 2..])
  }

  predicate EndsWith(s: string, suffix: string) {
    |suffix| <= |s| && s[|s| - |suffix|..] == suffix
  }

  function TrailingDigits(s: string): (n: nat)
    ensures n <= |s|
  {
    if s != "" && IsDigit(s[|s| - 1]) then 1 + TrailingDigits(s[..|s| - 1]) else 0
  }

  /** A trailing #digits counts repetitions of one test and is not part of its name. */
  function WithoutRepetition(name: string): string {
    var n := TrailingDigits(name);
    if 0 < n < |name| && name[|name| - n - 1] == '#' then name[..|name| - n - 1] else name
  }

  datatype Found = NoCase | Is(id: string) | Malformed

  /** The first required case that the name belongs to; a case without "::" cannot be compared. */
  function FindCase(required: seq<string>, name: string): (f: Found)
    ensures f.Is? ==> f.id in required
  {
    if required == [] then NoCase
    else
      var suffix := NameSuffix(required[0]);
      if suffix.None? then Malformed
      else if EndsWith(name, suffix.value) then Is(required[0])
      else FindCase(required[1..], name)
  }

  /** The identity of a test, and the end of every machine name it runs under. */
  function Identity(binary: string, test: string): string {
    binary + ("::" + test)
  }

  function MachineName(crate: string, binary: string, test: string): string {
    crate + ("::" + binary + "$" + test)
  }

  /** No double colon in the binary's name, nor a colon at its end: the first one of the identity is the separator. */
  predicate GoodBinary(binary: string) {
    forall i :: 0 <= i < |binary| ==> !At(binary + ":", i, "::")
  }

  lemma ColonsInBinary(binary: string, test: string, i: nat)
    requires i < |binary|
    ensures At(Identity(binary, test), i, "::") <==> At(binary + ":", i, "::")
  {
    var s, b := Identity(binary, test), binary + ":";
    assert s[i..i + 2] == b[i..i + 2];
  }

  lemma {:induction false} ColonsBehind(binary: string, test: string, i: nat)
    requires GoodBinary(binary) && i <= |binary|
    ensures FindColons(Identity(binary, test), i) == Some(|binary|)
    decreases |binary| - i
  {
    var s := Identity(binary, test);
    if i == |binary| {
      assert s[i..i + 2] == "::";
    } else {
      ColonsInBinary(binary, test, i);
      ColonsBehind(binary, test, i + 1);
    }
  }

  lemma {:induction false} DigitsAtEnd(base: string, digits: string)
    requires forall c :: c in digits ==> IsDigit(c)
    ensures TrailingDigits(base + "#" + digits) == |digits|
    decreases |digits|
  {
    var s := base + "#" + digits;
    if digits == "" {
      assert s[|s| - 1] == '#';
    } else {
      var init := digits[..|digits| - 1];
      assert s[|s| - 1] == digits[|digits| - 1] && digits[|digits| - 1] in digits;
      assert s[..|s| - 1] == base + "#" + init;
      DigitsAtEnd(base, init);
    }
  }

  lemma RepetitionIsDropped(base: string, digits: string)
    requires digits != "" && forall c :: c in digits ==> IsDigit(c)
    ensures WithoutRepetition(base + "#" + digits) == base
  {
    DigitsAtEnd(base, digits);
    var s := base + "#" + digits;
    assert s[|s| - |digits| - 1] == '#' && s[..|s| - |digits| - 1] == base;
  }

  /** Only a number with a # in front of it at the very end is dropped. */
  lemma OnlyMarkIsDropped(name: string)
    ensures var base := WithoutRepetition(name);
      base == name || (|base| + 1 < |name| && name[..|base| + 1] == base + "#"
                       && forall i :: |base| < i < |name| ==> IsDigit(name[i]))
  {
    DigitsTrail(name);
  }

  lemma {:induction false} DigitsTrail(s: string)
    ensures forall i :: |s| - TrailingDigits(s) <= i < |s| ==> IsDigit(s[i])
    decreases |s|
  {
    if s != "" && IsDigit(s[|s| - 1]) {
      DigitsTrail(s[..|s| - 1]);
    }
  }

  /** A required case owns exactly its own machine name: the first whose suffix fits wins. */
  lemma {:induction false} FirstFitIsFound(required: seq<string>, i: nat, name: string)
    requires i < |required| && NameSuffix(required[i]).Some? && EndsWith(name, NameSuffix(required[i]).value)
    requires forall j :: 0 <= j < i ==> NameSuffix(required[j]).Some? && !EndsWith(name, NameSuffix(required[j]).value)
    ensures FindCase(required, name) == Is(required[i])
    decreases i
  {
    if i > 0 {
      FirstFitIsFound(required[1..], i - 1, name);
    }
  }

  /** No number with a # in front at the end. */
  predicate Unmarked(test: string) {
    WithoutRepetition(test) == test
  }

  lemma {:induction false} DigitsOfTest(front: string, test: string)
    ensures TrailingDigits(front + ("$" + test)) == TrailingDigits(test)
    decreases |test|
  {
    var s := front + ("$" + test);
    if test == "" {
      assert s[|s| - 1] == '$';
    } else {
      var init := test[..|test| - 1];
      assert s[..|s| - 1] == front + ("$" + init) && s[|s| - 1] == test[|test| - 1];
      DigitsOfTest(front, init);
    }
  }

  /** A name has a repetition mark exactly when its test has. */
  lemma UnmarkedStays(front: string, test: string)
    requires Unmarked(test)
    ensures WithoutRepetition(front + ("$" + test)) == front + ("$" + test)
  {
    var s, n := front + ("$" + test), TrailingDigits(test);
    DigitsOfTest(front, test);
    if 0 < n < |s| {
      assert s[|s| - n - 1] == if n == |test| then '$' else test[|test| - n - 1];
    }
  }

  /** The name as the log shows it: bare on the first run, marked with a number on repetitions. */
  function Marked(name: string, digits: string): string {
    if digits == "" then name else name + "#" + digits
  }

  lemma MarkIsDropped(crate: string, binary: string, test: string, digits: string)
    requires (forall c :: c in digits ==> IsDigit(c)) && (digits == "" ==> Unmarked(test))
    ensures var name := MachineName(crate, binary, test); WithoutRepetition(Marked(name, digits)) == name
  {
    if digits == "" {
      var front := crate + ("::" + binary);
      assert MachineName(crate, binary, test) == front + ("$" + test);
      UnmarkedStays(front, test);
    } else {
      RepetitionIsDropped(MachineName(crate, binary, test), digits);
    }
  }

  lemma SuffixOfIdentity(binary: string, test: string)
    requires GoodBinary(binary)
    ensures NameSuffix(Identity(binary, test)) == Some("::" + binary + "$" + test)
  {
    var s := Identity(binary, test);
    ColonsBehind(binary, test, 0);
    assert s[..|binary|] == binary && s[|binary| + 2..] == test;
  }

  lemma NameEndsInSuffix(crate: string, binary: string, test: string)
    ensures EndsWith(MachineName(crate, binary, test), "::" + binary + "$" + test)
  {}

  /** A name belongs to a case exactly when something, a double colon, its binary, a dollar sign and its test make it up. */
  lemma BelongsIff(name: string, binary: string, test: string)
    requires GoodBinary(binary)
    ensures Belongs(name, Identity(binary, test)) <==> exists crate :: name == MachineName(crate, binary, test)
  {
    var suffix := "::" + binary + "$" + test;
    SuffixOfIdentity(binary, test);
    if EndsWith(name, suffix) {
      assert name == MachineName(name[..|name| - |suffix|], binary, test);
    }
    forall crate | name == MachineName(crate, binary, test) ensures EndsWith(name, suffix) {
      NameEndsInSuffix(crate, binary, test);
    }
  }

  /** Every run of a required test, first or repeated, in any crate, counts for its case. */
  lemma CaseIsRecognised(required: seq<string>, i: nat, crate: string, binary: string, test: string, digits: string)
    requires i < |required| && required[i] == Identity(binary, test) && GoodBinary(binary)
    requires (forall c :: c in digits ==> IsDigit(c)) && (digits == "" ==> Unmarked(test))
    requires forall j :: 0 <= j < i ==>
      NameSuffix(required[j]).Some? && !EndsWith(MachineName(crate, binary, test), NameSuffix(required[j]).value)
    ensures FindCase(required, WithoutRepetition(Marked(MachineName(crate, binary, test), digits))) == Is(required[i])
  {
    MarkIsDropped(crate, binary, test, digits);
    SuffixOfIdentity(binary, test);
    NameEndsInSuffix(crate, binary, test);
    FirstFitIsFound(required, i, MachineName(crate, binary, test));
  }

  /** What one line contributes: a case and its status, nothing, or an error. */
  datatype Event = Nothing | Counted(id: string, status: Status) | Bad

  function EventOf(line: LogLine, required: seq<string>): (e: Event)
    ensures e.Counted? ==> e.id in required
  {
    if line.Other? || line.event !in MACHINE_STATUS then Nothing
    else
      match FindCase(required, WithoutRepetition(line.name))
      case NoCase => Nothing
      case Is(id) => Counted(id, MACHINE_STATUS[line.event])
      case Malformed => Bad
  }

  // -- What the words of a log line mean ------------------------------------

  /** The five words that end a test; every other word is passed over. */
  predicate EndsTest(word: string) {
    word == "ok" || word == "failed" || word == "leaked" || word == "timeout" || word == "ignored"
  }

  /** A line about a test that ended and whose name belongs to a required case. */
  predicate Reports(line: LogLine, required: seq<string>) {
    line.TestMessage? && EndsTest(line.event) && FindCase(required, WithoutRepetition(line.name)).Is?
  }

  /** ok is a pass, ignored a skip, and failed, leaked and timeout are failures. */
  lemma WordsOfALine(line: LogLine, required: seq<string>)
    ensures EventOf(line, required).Counted? <==> Reports(line, required)
    ensures Reports(line, required) ==>
      var status := EventOf(line, required).status;
      && (status == Passed <==> line.event == "ok")
      && (status == Failed <==> line.event == "failed" || line.event == "leaked" || line.event == "timeout")
      && (status == Skipped <==> line.event == "ignored")
      && status != Missing
  {}

  /** The name fits the required case: it ends in its binary and test behind a double colon. */
  predicate Belongs(name: string, identity: string) {
    NameSuffix(identity).Some? && EndsWith(name, NameSuffix(identity).value)
  }

  /** The search goes on behind the case: it can be compared and does not fit. */
  predicate Passes(identity: string, name: string) {
    Contains(identity, "::") && !Belongs(name, identity)
  }

  predicate PassesFirst(required: seq<string>, n: nat, name: string) {
    n <= |required| && forall j :: 0 <= j < n ==> Passes(required[j], name)
  }

  /** A case without a double colon, reached before one that fits. */
  predicate StopsAt(required: seq<string>, i: nat, name: string) {
    PassesFirst(required, i, name) && i < |required| && !Contains(required[i], "::")
  }

  lemma {:induction false} FindBehind(required: seq<string>, n: nat, name: string)
    requires PassesFirst(required, n, name)
    ensures FindCase(required, name) == FindCase(required[n..], name)
  {
    if n == 0 {
      assert required[0..] == required;
    } else {
      FindBehind(required, n - 1, name);
      assert required[n - 1..][0] == required[n - 1] && required[n - 1..][1..] == required[n..];
      assert Passes(required[n - 1], name);
      SeparatorIff(required[n - 1]);
    }
  }

  lemma FirstNotPassed(required: seq<string>, name: string) returns (n: nat)
    ensures PassesFirst(required, n, name) && (n == |required| || !Passes(required[n], name))
  {
    n := 0;
    while n < |required| && Passes(required[n], name)
      invariant PassesFirst(required, n, name)
    {
      n := n + 1;
    }
  }

  /** The search is an error exactly when such a case stops it, and finds nothing exactly when it passes all. */
  lemma FindCaseIff(required: seq<string>, name: string)
    ensures FindCase(required, name).Malformed? <==> exists i: nat :: StopsAt(required, i, name)
    ensures FindCase(required, name).NoCase? <==> PassesFirst(required, |required|, name)
  {
    var n := FirstNotPassed(required, name);
    FindBehind(required, n, name);
    forall i: nat | StopsAt(required, i, name) ensures i == n {
      assert !Passes(required[i], name);
    }
    if n < |required| {
      assert required[n..][0] == required[n];
      SeparatorIff(required[n]);
      assert !Contains(required[n], "::") ==> StopsAt(required, n, name);
    }
  }

  lemma SeparatorIff(identity: string)
    ensures NameSuffix(identity).Some? <==> Contains(identity, "::")
  {
    ColonsIff(identity, 0);
    if Contains(identity, "::") {
      var i :| 0 <= i <= |identity| && At(identity, i, "::");
    }
  }

  lemma {:induction false} ColonsIff(s: string, i: nat)
    ensures FindColons(s, i).Some? <==> exists k :: i <= k < |s| && At(s, k, "::")
    decreases |s| - i
  {
    if i < |s| && !At(s, i, "::") { ColonsIff(s, i + 1); }
  }

  // -- The attempts of each case --------------------------------------------

  /** The statuses the log reports for one case, in order. */
  function Statuses(log: seq<LogLine>, required: seq<string>, id: string): seq<Status> {
    if log == [] then []
    else
      var e := EventOf(log[|log| - 1], required);
      Statuses(log[..|log| - 1], required, id) + if e.Counted? && e.id == id then [e.status] else []
  }

  predicate WellFormed(log: seq<LogLine>, required: seq<string>) {
    forall line :: line in log ==> !EventOf(line, required).Bad?
  }

  function MaxLength(columns: seq<seq<Status>>): nat {
    if columns == [] then 0
    else
      var rest := MaxLength(columns[1..]);
      if |columns[0]| > rest then |columns[0]| else rest
  }

  function Cell(ids: seq<string>, columns: seq<seq<Status>>, row: nat, j: nat): Case
    requires |ids| == |columns| && j < |ids|
  {
    Case(ids[j], if row < |columns[j]| then columns[j][row] else Missing)
  }

  /** One row per attempt, one cell per case, short columns padded. */
  function Matrix(ids: seq<string>, columns: seq<seq<Status>>): seq<seq<Case>>
    requires |ids| == |columns|
  {
    seq(MaxLength(columns), row requires row >= 0 =>
      seq(|ids|, j requires 0 <= j < |ids| => Cell(ids, columns, row, j)))
  }

  /** Dictionary order: each case once, where it first stands. */
  function Distinct(ids: seq<string>): seq<string> {
    if ids == [] then []
    else
      var init := Distinct(ids[..|ids| - 1]);
      if ids[|ids| - 1] in init then init else init + [ids[|ids| - 1]]
  }

  lemma {:induction false} DistinctIsSame(ids: seq<string>)
    ensures forall x :: x in Distinct(ids) <==> x in ids
    ensures forall i, j :: 0 <= i < j < |Distinct(ids)| ==> Distinct(ids)[i] != Distinct(ids)[j]
  {
    if ids != [] {
      DistinctIsSame(ids[..|ids| - 1]);
      assert ids == ids[..|ids| - 1] + [ids[|ids| - 1]];
    }
  }

  lemma {:induction false} DistinctOfUnique(ids: seq<string>)
    requires forall i, j :: 0 <= i < j < |ids| ==> ids[i] != ids[j]
    ensures Distinct(ids) == ids
  {
    if ids != [] {
      DistinctOfUnique(ids[..|ids| - 1]);
      assert ids == ids[..|ids| - 1] + [ids[|ids| - 1]];
    }
  }

  function Columns(log: seq<LogLine>, required: seq<string>): (c: seq<seq<Status>>)
    ensures |c| == |Distinct(required)|
  {
    var ids := Distinct(required);
    seq(|ids|, j requires 0 <= j < |ids| => Statuses(log, required, ids[j]))
  }

  function Attempts(log: seq<LogLine>, required: seq<string>): seq<seq<Case>> {
    Matrix(Distinct(required), Columns(log, required))
  }

  /** What the first i lines of the log have put into the table of events. */
  ghost predicate Gathered(events: map<string, seq<Status>>, log: seq<LogLine>, required: seq<string>) {
    && (forall id :: id in events <==> id in required)
    && WellFormed(log, required)
    && forall id :: id in required ==> events[id] == Statuses(log, required, id)
  }

  lemma NextLine(events: map<string, seq<Status>>, log: seq<LogLine>, required: seq<string>, line: LogLine)
    requires Gathered(events, log, required)
    ensures match EventOf(line, required)
      case Nothing => Gathered(events, log + [line], required)
      case Bad => true
      case Counted(id, status) => Gathered(events[id := events[id] + [status]], log + [line], required)
  {
    var more := log + [line];
    assert more[..|more| - 1] == log && more[|more| - 1] == line;
  }

  lemma GatheredColumns(events: map<string, seq<Status>>, log: seq<LogLine>, required: seq<string>)
    requires Gathered(events, log, required)
    ensures forall id :: id in Distinct(required) ==> id in events
    ensures var ids := Distinct(required);
      seq(|ids|, j requires 0 <= j < |ids| => events[ids[j]]) == Columns(log, required)
  {
    DistinctIsSame(required);
    var ids := Distinct(required);
    assert forall j :: 0 <= j < |ids| ==> ids[j] in ids;
  }

  /** `machine_case_attempts`: None stands for the error on a case without "::". */
  method MachineCaseAttempts(log: seq<LogLine>, required: seq<string>) returns (r: Option<seq<seq<Case>>>)
    ensures r == if WellFormed(log, required) then Some(Attempts(log, required)) else None
  {
    var events: map<string, seq<Status>> := map id | id in required :: [];
    for i := 0 to |log|
      invariant Gathered(events, log[..i], required)
    {
      NextLine(events, log[..i], required, log[i]);
      assert log[..i + 1] == log[..i] + [log[i]];
      var e := EventOf(log[i], required);
      match e
      case Nothing =>
      case Bad =>
        assert log[i] in log;
        return None;
      case Counted(id, status) =>
        events := events[id := events[id] + [status]];
    }
    assert log[..|log|] == log;
    var ids := Distinct(required);
    GatheredColumns(events, log, required);
    var columns := seq(|ids|, j requires 0 <= j < |ids| => events[ids[j]]);
    return Some(Matrix(ids, columns));
  }

  // -- The matrix is a padded transpose that loses no event ------------------

  lemma {:induction false} MaxLengthIsMax(columns: seq<seq<Status>>)
    ensures forall j :: 0 <= j < |columns| ==> |columns[j]| <= MaxLength(columns)
    ensures columns != [] ==> exists j :: 0 <= j < |columns| && |columns[j]| == MaxLength(columns)
  {
    if columns != [] {
      MaxLengthIsMax(columns[1..]);
      assert forall j :: 1 <= j < |columns| ==> columns[j] == columns[1..][j - 1];
      if |columns[0]| < MaxLength(columns) {
        var j :| 0 <= j < |columns[1..]| && |columns[1..][j]| == MaxLength(columns[1..]);
        assert |columns[j + 1]| == MaxLength(columns);
      } else {
        assert |columns[0]| == MaxLength(columns);
      }
    }
  }

  /** A column of the matrix, read downwards. */
  function Column(matrix: seq<seq<Case>>, j: nat): seq<Status>
    requires forall r :: 0 <= r < |matrix| ==> j < |matrix[r]|
  {
    seq(|matrix|, r requires 0 <= r < |matrix| => matrix[r][j].status)
  }

  function Padding(n: nat): seq<Status> {
    seq(n, _ => Missing)
  }

  /** Each case's statuses come back from its column, followed only by padding. */
  lemma ColumnsComeBack(ids: seq<string>, columns: seq<seq<Status>>, j: nat)
    requires |ids| == |columns| && j < |ids|
    ensures var m := Matrix(ids, columns);
      && |columns[j]| <= |m|
      && (forall r :: 0 <= r < |m| ==> |m[r]| == |ids| && m[r][j].id == ids[j])
      && Column(m, j) == columns[j] + Padding(|m| - |columns[j]|)
  {
    MaxLengthIsMax(columns);
  }

  function CountEvents(log: seq<LogLine>, required: seq<string>): nat {
    if log == [] then 0
    else CountEvents(log[..|log| - 1], required) + if EventOf(log[|log| - 1], required).Counted? then 1 else 0
  }

  function TotalStatuses(log: seq<LogLine>, required: seq<string>, ids: seq<string>): nat {
    if ids == [] then 0 else |Statuses(log, required, ids[0])| + TotalStatuses(log, required, ids[1..])
  }

  function Occurrences(ids: seq<string>, id: string): nat {
    if ids == [] then 0 else (if ids[0] == id then 1 else 0) + Occurrences(ids[1..], id)
  }

  lemma {:induction false} OneMoreLine(log: seq<LogLine>, required: seq<string>, ids: seq<string>)
    requires log != []
    ensures var e := EventOf(log[|log| - 1], required);
      TotalStatuses(log, required, ids) == TotalStatuses(log[..|log| - 1], required, ids)
        + if e.Counted? then Occurrences(ids, e.id) else 0
    decreases |ids|
  {
    if ids != [] { OneMoreLine(log, required, ids[1..]); }
  }

  lemma {:induction false} UniqueOccursOnce(ids: seq<string>, id: string)
    requires id in ids && forall i, j :: 0 <= i < j < |ids| ==> ids[i] != ids[j]
    ensures Occurrences(ids, id) == 1
  {
    if ids[0] == id {
      NoOccurrence(ids[1..], id);
    } else {
      UniqueOccursOnce(ids[1..], id);
    }
  }

  lemma {:induction false} NoOccurrence(ids: seq<string>, id: string)
    requires id !in ids
    ensures Occurrences(ids, id) == 0
  {
    if ids != [] { NoOccurrence(ids[1..], id); }
  }

  /** Every counted event of the log stands in exactly one column. */
  lemma {:induction false} NoEventIsLost(log: seq<LogLine>, required: seq<string>)
    ensures TotalStatuses(log, required, Distinct(required)) == CountEvents(log, required)
    decreases |log|
  {
    var ids := Distinct(required);
    if log == [] {
      EmptyTotals(required, ids);
    } else {
      NoEventIsLost(log[..|log| - 1], required);
      OneMoreLine(log, required, ids);
      DistinctIsSame(required);
      var e := EventOf(log[|log| - 1], required);
      if e.Counted? { UniqueOccursOnce(ids, e.id); }
    }
  }

  lemma {:induction false} EmptyTotals(required: seq<string>, ids: seq<string>)
    ensures TotalStatuses([], required, ids) == 0
  {
    if ids != [] { EmptyTotals(required, ids[1..]); }
  }

  // -- The decision ---------------------------------------------------------

  predicate AllPassed(matrix: seq<seq<Case>>) {
    forall r, j :: 0 <= r < |matrix| && 0 <= j < |matrix[r]| ==> matrix[r][j].status == Passed
  }

  /** The case ran n times and passed each time. */
  predicate PassedTimes(statuses: seq<Status>, n: nat) {
    |statuses| == n && forall i :: 0 <= i < n ==> statuses[i] == Passed
  }

  /** Every required case was observed equally often, at least once, and always passed. */
  ghost predicate AllRequiredPassed(log: seq<LogLine>, required: seq<string>) {
    exists n: nat :: AllPassedTimes(log, required, n)
  }

  predicate AllPassedTimes(log: seq<LogLine>, required: seq<string>, n: nat) {
    n > 0 && forall id :: id in required ==> PassedTimes(Statuses(log, required, id), n)
  }

  /** The line reports the case, with the word ok. */
  predicate ReportsOk(line: LogLine, required: seq<string>, id: string) {
    Reports(line, required) && line.event == "ok" && FindCase(required, WithoutRepetition(line.name)) == Is(id)
  }

  lemma {:induction false} StatusOfLine(log: seq<LogLine>, required: seq<string>, line: LogLine)
    requires line in log && Reports(line, required)
    ensures EventOf(line, required).Counted?
    ensures var e := EventOf(line, required); e.status in Statuses(log, required, e.id)
  {
    var init, last := log[..|log| - 1], log[|log| - 1];
    if line != last {
      assert log == init + [last];
      StatusOfLine(init, required, line);
    }
  }

  lemma {:induction false} LineOfStatus(log: seq<LogLine>, required: seq<string>, id: string, status: Status)
    returns (line: LogLine)
    requires status in Statuses(log, required, id)
    ensures line in log && Reports(line, required) && EventOf(line, required) == Counted(id, status)
  {
    var init, last := log[..|log| - 1], log[|log| - 1];
    if EventOf(last, required) == Counted(id, status) {
      line := last;
    } else {
      line := LineOfStatus(init, required, id, status);
    }
  }

  /** On the words of the log: every line that reports a required case says ok, and every required case has such a line. */
  ghost predicate OnlyOk(log: seq<LogLine>, required: seq<string>) {
    && (forall line :: line in log && Reports(line, required) ==> line.event == "ok")
    && (forall id :: id in required ==> exists line :: line in log && ReportsOk(line, required, id))
  }

  lemma PassedMeansOk(log: seq<LogLine>, required: seq<string>)
    requires AllRequiredPassed(log, required)
    ensures OnlyOk(log, required)
  {
    var n: nat :| AllPassedTimes(log, required, n);
    forall line | line in log && Reports(line, required) ensures line.event == "ok" {
      WordsOfALine(line, required);
      StatusOfLine(log, required, line);
      var e := EventOf(line, required);
      assert PassedTimes(Statuses(log, required, e.id), n);
    }
    forall id | id in required ensures exists line :: line in log && ReportsOk(line, required, id) {
      assert PassedTimes(Statuses(log, required, id), n);
      assert Statuses(log, required, id)[0] == Passed;
      var line := LineOfStatus(log, required, id, Passed);
      WordsOfALine(line, required);
      assert ReportsOk(line, required, id);
    }
  }

  lemma MatrixPassesIff(log: seq<LogLine>, required: seq<string>)
    requires required != []
    ensures Attempts(log, required) != [] && AllPassed(Attempts(log, required)) <==> AllRequiredPassed(log, required)
  {
    var ids, columns, m := Distinct(required), Columns(log, required), Attempts(log, required);
    DistinctIsSame(required);
    MaxLengthIsMax(columns);
    assert required[0] in ids;
    if m != [] && AllPassed(m) {
      forall id | id in required ensures PassedTimes(Statuses(log, required, id), |m|) {
        var j :| 0 <= j < |ids| && ids[j] == id;
        PassedColumn(ids, columns, j);
      }
      assert AllPassedTimes(log, required, |m|);
    }
    if AllRequiredPassed(log, required) {
      var n: nat :| AllPassedTimes(log, required, n);
      forall j | 0 <= j < |ids| ensures PassedTimes(columns[j], n) {
        assert ids[j] in required;
      }
      assert |m| == n;
      forall r, j | 0 <= r < |m| && 0 <= j < |m[r]| ensures m[r][j].status == Passed {
        assert PassedTimes(columns[j], n);
      }
    }
  }

  lemma PassedColumn(ids: seq<string>, columns: seq<seq<Status>>, j: nat)
    requires |ids| == |columns| && j < |ids| && AllPassed(Matrix(ids, columns))
    ensures PassedTimes(columns[j], |Matrix(ids, columns)|)
  {
    var m: seq<seq<Case>> := Matrix(ids, columns);
    MaxLengthIsMax(columns);
    assert forall r :: 0 <= r < |m| ==> m[r][j] == Cell(ids, columns, r, j) && m[r][j].status == Passed;
    assert Cell(ids, columns, |columns[j]|, j).status == Missing;
    forall i | 0 <= i < |columns[j]| ensures columns[j][i] == Passed {
      assert m[i][j].status == columns[j][i];
    }
  }

  datatype Kind = TestKind | MeasurementKind | OtherKind

  /** The other facts the decision looks at. */
  datatype Facts = Facts(
    returnCode: int, kind: Kind, executed: nat, measured: bool,
    needsPostgres: bool, hasVersion: bool, runtime: bool, installations: nat, allFresh: bool)

  /** The status, overwritten step by step. */
  method DecideStatus(required: seq<string>, matrix: seq<seq<Case>>, f: Facts) returns (status: Status)
    ensures status == Passed || status == Failed
    ensures status == Passed <==>
      && f.returnCode == 0
      && (required != [] ==> matrix != [] && AllPassed(matrix))
      && (f.kind == TestKind ==> f.executed > 0)
      && (f.kind == MeasurementKind ==> f.measured)
      && (f.needsPostgres ==> f.hasVersion)
      && (f.runtime ==> f.installations > 0 && f.allFresh)
  {
    status := if f.returnCode == 0 then Passed else Failed;
    if required != [] && (matrix == [] || !AllPassed(matrix)) {
      status := Failed;
    }
    if f.returnCode == 0 && f.kind == TestKind && f.executed == 0 {
      status := Failed;
    }
    if f.returnCode == 0 && f.kind == MeasurementKind && !f.measured {
      status := Failed;
    }
    if f.needsPostgres && !f.hasVersion {
      status := Failed;
    }
    if f.runtime && f.installations == 0 {
      status := Failed;
    }
    if f.runtime && !f.allFresh {
      status := Failed;
    }
  }
}
