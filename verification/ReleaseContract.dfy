/**
 A release contract and the results submitted for it: the checks of each result
 and of the shards together, and which contracts make every shard answer for its
 own cases.
 */
module ReleaseContract {
  import opened Text
  import opened Ordering
  import opened ReleaseSuite
  import opened ReleaseEvidence
  import opened ShardCoverage

  /**
   suites maps each suite to its required cases, which may be none; the flags say
   whether selections and attempts are among the required fields of a result.
   */
  datatype Contract = Contract(
    suites: map<string, seq<string>>, selectedRequired: bool, attemptsRequired: bool,
    shards: seq<Shard>, cases: seq<string>)

  datatype Submission = Submission(suiteId: string, tag: Option<ShardTag>, record: Record, log: seq<LogLine>)

  function SuiteIds(subs: seq<Submission>): (r: seq<string>)
    ensures |r| == |subs| && forall i :: 0 <= i < |subs| ==> r[i] == subs[i].suiteId
  {
    seq(|subs|, i requires 0 <= i < |subs| => subs[i].suiteId)
  }

  /** What the shard check reads of a submission. */
  function ResultOf(sub: Submission): SuiteResult {
    SuiteResult(sub.suiteId, sub.tag, sub.record.selected, Ids(sub.record.observed))
  }

  function ResultsOf(subs: seq<Submission>): (r: seq<SuiteResult>)
    ensures |r| == |subs| && forall i :: 0 <= i < |subs| ==> r[i] == ResultOf(subs[i])
  {
    seq(|subs|, i requires 0 <= i < |subs| => ResultOf(subs[i]))
  }

  // -- Acceptance -----------------------------------------------------------

  /** The checks of one result against its own suite. */
  predicate Checked(c: Contract, sub: Submission) {
    && sub.suiteId in c.suites
    && var required := c.suites[sub.suiteId];
    && (c.selectedRequired ==> CaseEvidence(sub.record, required))
    && (c.attemptsRequired ==> AttemptsAccepted(sub.record, required))
    && CaseLog(sub.record, required, sub.log)
  }

  predicate AllChecked(c: Contract, subs: seq<Submission>) {
    NoRepeats(SuiteIds(subs)) && forall sub :: sub in subs ==> Checked(c, sub)
  }

  predicate EvidenceAccepted(c: Contract, subs: seq<Submission>) {
    AllChecked(c, subs) && ShardsAccepted(c.shards, ResultsOf(subs), c.cases)
  }

  method CheckResult(c: Contract, sub: Submission) returns (ok: bool)
    ensures ok <==> Checked(c, sub)
    ensures ok <==>
      && sub.suiteId in c.suites
      && (c.selectedRequired ==> CaseEvidence(sub.record, c.suites[sub.suiteId]))
      && (c.attemptsRequired ==> AttemptsAccepted(sub.record, c.suites[sub.suiteId]))
      && CaseLog(sub.record, c.suites[sub.suiteId], sub.log)
  {
    if sub.suiteId !in c.suites {
      return false;
    }
    var required := c.suites[sub.suiteId];
    if c.selectedRequired {
      ok := ValidateCaseEvidence(sub.record, required);
      if !ok {
        return;
      }
    }
    if c.attemptsRequired {
      ok := ValidateAttempts(sub.record, required);
      if !ok {
        return;
      }
    }
    ok := ValidateCaseLog(sub.record, required, sub.log);
  }

  /** The loop over the submitted results, then the shard check. */
  method CheckEvidence(c: Contract, subs: seq<Submission>) returns (ok: bool)
    ensures ok <==> EvidenceAccepted(c, subs)
  {
    var observed: set<string> := {};
    for i := 0 to |subs|
      invariant observed == Elems(SuiteIds(subs[..i])) && AllChecked(c, subs[..i])
    {
      OneMore(c, subs, i);
      if subs[i].suiteId in observed {
        return false;
      }
      var fine := CheckResult(c, subs[i]);
      if !fine {
        return false;
      }
      observed := observed + {subs[i].suiteId};
    }
    assert subs[..|subs|] == subs;
    ok := CheckShards(c.shards, ResultsOf(subs), c.cases);
  }

  lemma OneMore(c: Contract, subs: seq<Submission>, i: nat)
    requires i < |subs|
    ensures Elems(SuiteIds(subs[..i + 1])) == Elems(SuiteIds(subs[..i])) + {subs[i].suiteId}
    ensures AllChecked(c, subs[..i + 1]) <==>
      AllChecked(c, subs[..i]) && subs[i].suiteId !in Elems(SuiteIds(subs[..i])) && Checked(c, subs[i])
    ensures AllChecked(c, subs) ==> AllChecked(c, subs[..i + 1])
  {
    var some, sub := subs[..i], subs[i];
    assert subs[..i + 1] == some + [sub];
    assert SuiteIds(some + [sub]) == SuiteIds(some) + [sub.suiteId];
    NoRepeatsConcat(SuiteIds(some), [sub.suiteId]);
    assert forall x :: x in some + [sub] <==> x in some || x == sub;
    if AllChecked(c, subs) {
      assert SuiteIds(subs) == SuiteIds(subs[..i + 1]) + SuiteIds(subs[i + 1..]);
      NoRepeatsConcat(SuiteIds(subs[..i + 1]), SuiteIds(subs[i + 1..]));
    }
  }
}
