/** Recorded recovery histories: mutation plans, the replay scenario around them, and which plans are legal. */
module MutationPlan {
  import opened InsertValues
  import opened DvmShrink

  datatype Kind = InsertRow | UpdateRow | DeleteRow
  datatype Mutation = Mutation(kind: Kind, id: int, value: int)
  datatype Operation = Operation(mutation: Mutation, sourceCycle: int)
  type Plan = seq<Operation>
  type History = Scenario<int, Mutation>

  // -- Plans and scenarios --------------------------------------------------

  /** One cycle per operation, no initial data. */
  function ReplayScenario(plan: Plan): History {
    Scenario(seq(|plan|, i requires 0 <= i < |plan| => Cycle(plan[i].sourceCycle, [plan[i].mutation])), [])
  }

  predicate Single(s: History) {
    s.initialData == [] && forall i :: 0 <= i < |s.cycles| ==> |s.cycles[i].mutations| == 1
  }

  function ScenarioMutations(s: History): Plan
    requires Single(s)
  {
    seq(|s.cycles|, i requires 0 <= i < |s.cycles| => Operation(s.cycles[i].mutations[0], s.cycles[i].tag))
  }

  /** Wrapping and unwrapping are inverse to each other. */
  lemma PlanRoundTrip(plan: Plan)
    ensures Single(ReplayScenario(plan)) && ScenarioMutations(ReplayScenario(plan)) == plan
  {}

  lemma ScenarioRoundTrip(s: History)
    requires Single(s)
    ensures ReplayScenario(ScenarioMutations(s)) == s
  {
    var back := ReplayScenario(ScenarioMutations(s));
    forall i | 0 <= i < |s.cycles| ensures back.cycles[i] == s.cycles[i] {
      assert s.cycles[i].mutations == [s.cycles[i].mutations[0]];
    }
  }

  // -- Legality -------------------------------------------------------------

  /** Row 0 exists from the start for odd seeds. */
  function InitialRows(seed: int): set<int> {
    if seed % 2 == 1 then {0} else {}
  }

  /** An insert needs an absent row, an update or delete a live one. */
  predicate Allowed(live: set<int>, m: Mutation) {
    m.kind.InsertRow? <==> m.id !in live
  }

  /** Rows alive after one operation. */
  function After(live: set<int>, m: Mutation): set<int> {
    if m.kind.InsertRow? then live + {m.id} else if m.kind.DeleteRow? then live - {m.id} else live
  }

  predicate Legal(live: set<int>, plan: Plan)
    decreases |plan|
  {
    plan == [] || (Allowed(live, plan[0].mutation) && Legal(After(live, plan[0].mutation), plan[1..]))
  }

  method LegalMutationPlan(seed: int, plan: Plan) returns (ok: bool)
    ensures ok <==> Legal(InitialRows(seed), plan)
  {
    var live := InitialRows(seed);
    assert plan[0..] == plan;
    for i := 0 to |plan|
      invariant Legal(InitialRows(seed), plan) <==> Legal(live, plan[i..])
    {
      var m := plan[i].mutation;
      assert plan[i..][0] == plan[i] && plan[i..][1..] == plan[i + 1..];
      if m.kind.InsertRow? {
        if m.id in live {
          return false;
        }
        live := live + {m.id};
      } else if m.id !in live {
        return false;
      } else if m.kind.DeleteRow? {
        live := live - {m.id};
      }
    }
    return true;
  }

  /** The last insert or delete of the row before position i is an insert; without one the row was there from the start. */
  predicate Present(live: set<int>, plan: Plan, i: nat, id: int)
    requires i <= |plan|
  {
    if i == 0 then id in live else
      var m := plan[i - 1].mutation;
      if m.id == id && !m.kind.UpdateRow? then m.kind.InsertRow? else Present(live, plan, i - 1, id)
  }

  lemma {:induction false} PresentAfterFirst(live: set<int>, plan: Plan, i: nat, id: int)
    requires 0 < i <= |plan|
    ensures Present(live, plan, i, id) <==> Present(After(live, plan[0].mutation), plan[1..], i - 1, id)
  {
    if i == 1 {
      assert Present(live, plan, 0, id) <==> id in live;
    } else {
      PresentAfterFirst(live, plan, i - 1, id);
      assert plan[1..][i - 2] == plan[i - 1];
    }
  }

  /** Inserts hit exactly absent rows; updates and deletes exactly present ones. */
  predicate FitsAt(live: set<int>, plan: Plan, i: nat)
    requires i < |plan|
  {
    plan[i].mutation.kind.InsertRow? <==> !Present(live, plan, i, plan[i].mutation.id)
  }

  /** A plan is legal exactly when every operation fits the row's own past. */
  lemma {:induction false} LegalIff(live: set<int>, plan: Plan)
    ensures Legal(live, plan) <==> forall i :: 0 <= i < |plan| ==> FitsAt(live, plan, i)
    decreases |plan|
  {
    if plan != [] {
      var next, rest := After(live, plan[0].mutation), plan[1..];
      LegalIff(next, rest);
      assert Present(live, plan, 0, plan[0].mutation.id) <==> plan[0].mutation.id in live;
      assert FitsAt(live, plan, 0) <==> Allowed(live, plan[0].mutation);
      forall i | 0 < i < |plan| ensures FitsAt(live, plan, i) <==> FitsAt(next, rest, i - 1) {
        PresentAfterFirst(live, plan, i, plan[i].mutation.id);
        assert rest[i - 1] == plan[i];
      }
      forall j | 0 <= j < |rest| ensures FitsAt(next, rest, j) <==> FitsAt(live, plan, j + 1) {}
    }
  }

  // -- Legality from the seed -----------------------------------------------

  /** Operation j inserts or deletes the row. */
  predicate Touches(plan: Plan, j: nat, id: int)
    requires j < |plan|
  {
    plan[j].mutation.id == id && plan[j].mutation.kind != UpdateRow
  }

  /** Operation j is the last before i that inserts or deletes the row. */
  predicate LastTouch(plan: Plan, i: nat, j: nat, id: int)
    requires i <= |plan|
  {
    j < i && Touches(plan, j, id) && forall k :: j < k < i ==> !Touches(plan, k, id)
  }

  /** Before operation i the row is there: inserted and not deleted since, or row 0 of an odd seed, never touched. */
  ghost predicate There(seed: int, plan: Plan, i: nat, id: int)
    requires i <= |plan|
  {
    || (exists j: nat :: LastTouch(plan, i, j, id) && plan[j].mutation.kind == InsertRow)
    || (id == 0 && seed % 2 != 0 && forall k :: 0 <= k < i ==> !Touches(plan, k, id))
  }

  lemma {:induction false} PresentIsThere(seed: int, plan: Plan, i: nat, id: int)
    requires i <= |plan|
    ensures Present(InitialRows(seed), plan, i, id) <==> There(seed, plan, i, id)
  {
    if i > 0 {
      PresentIsThere(seed, plan, i - 1, id);
      if Touches(plan, i - 1, id) {
        assert LastTouch(plan, i, i - 1, id);
      } else {
        forall j: nat ensures LastTouch(plan, i, j, id) <==> LastTouch(plan, i - 1, j, id) {}
      }
    }
  }

  /** From the seed alone: each operation is an insert exactly when its row is not there. */
  lemma LegalFromSeedIff(seed: int, plan: Plan)
    ensures Legal(InitialRows(seed), plan) <==>
      forall i :: 0 <= i < |plan| ==> (plan[i].mutation.kind == InsertRow <==> !There(seed, plan, i, plan[i].mutation.id))
  {
    LegalIff(InitialRows(seed), plan);
    forall i | 0 <= i < |plan|
      ensures FitsAt(InitialRows(seed), plan, i) <==>
        (plan[i].mutation.kind == InsertRow <==> !There(seed, plan, i, plan[i].mutation.id))
    {
      PresentIsThere(seed, plan, i, plan[i].mutation.id);
    }
  }

  /** The operations on one row. */
  function OnRow(plan: Plan, id: int): Plan {
    if plan == [] then []
    else (if plan[0].mutation.id == id then [plan[0]] else []) + OnRow(plan[1..], id)
  }

  /** Legality splits by row: each row's own operations, from that row's own presence. */
  lemma {:induction false} LegalRowByRow(live: set<int>, plan: Plan)
    ensures Legal(live, plan) <==> forall id :: Legal(live * {id}, OnRow(plan, id))
    decreases |plan|
  {
    if plan == [] {
      assert forall id :: OnRow(plan, id) == [];
    } else {
      var m, rest := plan[0].mutation, plan[1..];
      var next := After(live, m);
      LegalRowByRow(next, rest);
      forall id ensures Legal(live * {id}, OnRow(plan, id)) <==>
          (id == m.id ==> Allowed(live, m)) && Legal(next * {id}, OnRow(rest, id))
      {
        if id == m.id {
          assert OnRow(plan, id) == [plan[0]] + OnRow(rest, id);
          assert After(live * {id}, m) == next * {id};
        } else {
          assert OnRow(plan, id) == OnRow(rest, id);
          assert live * {id} == next * {id};
        }
      }
      assert Legal(live * {m.id}, OnRow(plan, m.id)) ==> Allowed(live, m);
    }
  }

  lemma {:induction false} LegalPrefix(live: set<int>, plan: Plan, n: nat)
    requires Legal(live, plan) && n <= |plan|
    ensures Legal(live, plan[..n])
    decreases |plan|
  {
    if n > 0 {
      LegalPrefix(After(live, plan[0].mutation), plan[1..], n - 1);
      assert plan[..n][1..] == plan[1..][..n - 1];
    }
  }

  /** An update can always be dropped. */
  lemma {:induction false} DroppingAnUpdateStaysLegal(live: set<int>, plan: Plan, i: nat)
    requires Legal(live, plan) && i < |plan| && plan[i].mutation.kind.UpdateRow?
    ensures Legal(live, Without(plan, i))
    decreases |plan|
  {
    if i == 0 {
      assert Without(plan, 0) == plan[1..];
    } else {
      DroppingAnUpdateStaysLegal(After(live, plan[0].mutation), plan[1..], i - 1);
      assert Without(plan, i)[1..] == Without(plan[1..], i - 1);
    }
  }
}
