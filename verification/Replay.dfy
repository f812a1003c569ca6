/**
 The failure oracle that both shrinkers drive, with its log. A run of a plan is
 an arbitrary function of the attempt number and the plan, so that every oracle,
 flaky ones included, is covered.
 */
module Replay {
  import opened Text

  datatype Attempt<P> =
    | Rejected(plan: P)                            // refused before running
    | Ran(plan: P, outcome: Option<string>)        // failure signature, if it failed with a tag

  ghost predicate TurnedDown<P>(attempts: seq<Attempt<P>>, p: P, signature: string) {
    exists k :: 0 <= k < |attempts| && attempts[k].plan == p && attempts[k] != Ran(p, Some(signature))
  }

  lemma TurnedDownStays<P>(before: seq<Attempt<P>>, after: seq<Attempt<P>>, p: P, signature: string)
    requires before <= after && TurnedDown(before, p, signature)
    ensures TurnedDown(after, p, signature)
  {
    var k :| 0 <= k < |before| && before[k].plan == p && before[k] != Ran(p, Some(signature));
    assert after[k] == before[k];
  }

  class Replayer<S(!new), P(==, !new)> {
    const plan: S -> P
    const legal: P -> bool
    const run: (nat, P) -> Option<string>
    const signature: string
    var attempts: seq<Attempt<P>>
    var successful: map<P, nat>                    // plan -> its latest matching attempt

    /** The log is what the oracle answered, and `successful` holds exactly the plans that matched. */
    ghost predicate Valid()
      reads this
    {
      && (forall k :: 0 <= k < |attempts| ==> attempts[k] == Answer(k, attempts[k].plan))
      && (forall p :: p in successful ==> successful[p] < |attempts| && attempts[successful[p]] == Match(p))
      && (forall k :: 0 <= k < |attempts| && attempts[k] == Match(attempts[k].plan) ==> attempts[k].plan in successful)
    }

    function Answer(k: nat, p: P): Attempt<P> {
      if legal(p) then Ran(p, run(k, p)) else Rejected(p)
    }

    function Match(p: P): Attempt<P> {
      Ran(p, Some(signature))
    }

    /** The scenario was run, was legal, and failed with the recorded signature. */
    ghost predicate Reproduced(s: S)
      reads this
    {
      plan(s) in successful
    }

    /** Some attempt tried the scenario and did not keep it. */
    ghost predicate Refused(s: S)
      reads this
    {
      TurnedDown(attempts, plan(s), signature)
    }

    /** The recorded history, run unchanged as attempt zero. */
    constructor (plan: S -> P, legal: P -> bool, run: (nat, P) -> Option<string>, signature: string, baseline: P)
      requires legal(baseline) && run(0, baseline) == Some(signature)
      ensures Valid()
      ensures this.plan == plan && this.legal == legal && this.run == run && this.signature == signature
      ensures attempts == [Match(baseline)] && successful == map[baseline := 0]
    {
      this.plan, this.legal, this.run, this.signature := plan, legal, run, signature;
      attempts := [Ran(baseline, run(0, baseline))];
      successful := map[baseline := 0];
    }

    method Replay(candidate: S) returns (ok: bool)
      requires Valid()
      modifies this
      ensures Valid()
      ensures attempts == old(attempts) + [Answer(|old(attempts)|, plan(candidate))]
      ensures ok <==> legal(plan(candidate)) && run(|old(attempts)|, plan(candidate)) == Some(signature)
      ensures successful == if ok then old(successful)[plan(candidate) := |old(attempts)|] else old(successful)
      ensures !ok ==> Refused(candidate)
      ensures Grew()
    {
      var p := plan(candidate);
      if !legal(p) {
        attempts := attempts + [Rejected(p)];
        ok := false;
      } else {
        var outcome := run(|attempts|, p);
        attempts := attempts + [Ran(p, outcome)];
        ok := outcome == Some(signature);
        if ok {
          successful := successful[p := |attempts| - 1];
        }
      }
      assert attempts[|attempts| - 1].plan == p;
      forall q | TurnedDown(old(attempts), q, signature) ensures TurnedDown(attempts, q, signature) {
        TurnedDownStays(old(attempts), attempts, q, signature);
      }
    }

    /** The log is only appended to, */
    twostate predicate Longer()
      reads this
    {
      old(attempts) <= attempts && old(successful).Keys <= successful.Keys
    }

    /** so what was refused stays refused. */
    twostate predicate Grew()
      reads this
    {
      Longer() && forall p :: TurnedDown(old(attempts), p, signature) ==> TurnedDown(attempts, p, signature)
    }

    twostate lemma LongerGrew()
      requires Longer()
      ensures Grew()
    {
      forall p | TurnedDown(old(attempts), p, signature) ensures TurnedDown(attempts, p, signature) {
        TurnedDownStays(old(attempts), attempts, p, signature);
      }
    }
  }

  /** Attempt k keeps the scenario: it is legal and fails with the recorded signature. */
  ghost function Oracle<S(!new), P(!new)>(r: Replayer<S, P>): (nat, S) -> bool {
    (k: nat, s: S) => r.legal(r.plan(s)) && r.run(k, r.plan(s)) == Some(r.signature)
  }

  /** The scenario kept so far and the number of attempts made. */
  datatype Run<S> = Run(now: S, used: nat)

  /** One more attempt. */
  ghost function Tried<S>(o: (nat, S) -> bool, u: Run<S>, candidate: S): Run<S> {
    Run(if o(u.used, candidate) then candidate else u.now, u.used + 1)
  }

  /** An oracle whose answer does not depend on when it is asked. */
  ghost predicate Deterministic<P(!new)>(run: (nat, P) -> Option<string>) {
    forall i, j, p :: run(i, p) == run(j, p)
  }

  /** With such an oracle a refused scenario is illegal or does not show the failure. */
  lemma RefusedDoesNotFail<S(!new), P(!new)>(r: Replayer<S, P>, s: S, k: nat)
    requires r.Valid() && Deterministic(r.run) && r.Refused(s)
    ensures !(r.legal(r.plan(s)) && r.run(k, r.plan(s)) == Some(r.signature))
  {
    var i :| 0 <= i < |r.attempts| && r.attempts[i].plan == r.plan(s) && r.attempts[i] != r.Match(r.plan(s));
    assert r.attempts[i] == r.Answer(i, r.plan(s));
    assert r.run(i, r.plan(s)) == r.run(k, r.plan(s));
  }

  lemma ReproducedFails<S(!new), P(!new)>(r: Replayer<S, P>, s: S, k: nat)
    requires r.Valid() && Deterministic(r.run) && r.Reproduced(s)
    ensures r.legal(r.plan(s)) && r.run(k, r.plan(s)) == Some(r.signature)
  {
    var i := r.successful[r.plan(s)];
    assert r.attempts[i] == r.Answer(i, r.plan(s));
    assert r.run(i, r.plan(s)) == r.run(k, r.plan(s));
  }
}
