/**
 Reduction of a recovery history: cycles are dropped by the scenario shrinker,
 then operands are zeroed and operations replaced by simpler ones, until a whole
 pass changes nothing.
 */
module RecoveryShrink {
  import opened Text
  import opened InsertValues
  import opened Replay
  import opened DvmShrink
  import opened MutationPlan

  function Complexity(k: Kind): nat {
    match k case DeleteRow => 0 case UpdateRow => 1 case InsertRow => 2
  }

  // -- Weight of a plan -----------------------------------------------------

  function OperationWeight(m: Mutation): nat {
    Complexity(m.kind) + (if m.id != 0 then 1 else 0) + (if m.value != 0 then 1 else 0)
  }

  /** Cycles, operation complexity and non-zero operands. */
  function Weight(plan: Plan): nat {
    if plan == [] then 0 else 1 + OperationWeight(plan[0].mutation) + Weight(plan[1..])
  }

  function WithMutation(plan: Plan, i: nat, m: Mutation): Plan
    requires i < |plan|
  {
    plan[i := plan[i].(mutation := m)]
  }

  lemma {:induction false} WeightUpdate(plan: Plan, i: nat, m: Mutation)
    requires i < |plan|
    ensures Weight(WithMutation(plan, i, m)) == Weight(plan) - OperationWeight(plan[i].mutation) + OperationWeight(m)
  {
    if i == 0 {
      assert WithMutation(plan, 0, m)[1..] == plan[1..];
    } else {
      WeightUpdate(plan[1..], i - 1, m);
      assert WithMutation(plan, i, m)[1..] == WithMutation(plan[1..], i - 1, m);
    }
  }

  lemma {:induction false} WeightWithout(plan: Plan, i: nat)
    requires i < |plan|
    ensures Weight(Without(plan, i)) < Weight(plan)
  {
    if i == 0 {
      assert Without(plan, 0) == plan[1..];
    } else {
      WeightWithout(plan[1..], i - 1);
      assert Without(plan, i)[1..] == Without(plan[1..], i - 1);
    }
  }

  // -- Where the operations of a plan come from -----------------------------

  /** The same recorded operation: operands kept or zeroed, the kind no more complex. */
  predicate Stems(a: Operation, b: Operation) {
    && a.sourceCycle == b.sourceCycle
    && (a.mutation.id == b.mutation.id || a.mutation.id == 0)
    && (a.mutation.value == b.mutation.value || a.mutation.value == 0)
    && Complexity(a.mutation.kind) <= Complexity(b.mutation.kind)
  }

  /** Every operation of p stems from one of q, in order. */
  ghost predicate Embeds(p: Plan, q: Plan)
    decreases |q|
  {
    p == [] || (q != [] && ((Stems(p[0], q[0]) && Embeds(p[1..], q[1..])) || Embeds(p, q[1..])))
  }

  lemma {:induction false} EmbedsItself(p: Plan)
    ensures Embeds(p, p)
    decreases |p|
  {
    if p == [] {
    } else {
      EmbedsItself(p[1..]);
    }
  }

  lemma {:induction false} EmbedsUpdate(p: Plan, i: nat, a: Operation)
    requires i < |p| && Stems(a, p[i])
    ensures Embeds(p[i := a], p)
    decreases |p|
  {
    var q := p[i := a];
    if i == 0 {
      assert q[1..] == p[1..];
      EmbedsItself(p[1..]);
    } else {
      EmbedsUpdate(p[1..], i - 1, a);
      assert q[1..] == p[1..][i - 1 := a];
    }
  }

  lemma {:induction false} EmbedsWithout(p: Plan, i: nat)
    requires i < |p|
    ensures Embeds(Without(p, i), p)
    decreases |p|
  {
    if i == 0 {
      assert Without(p, 0) == p[1..];
      EmbedsItself(p[1..]);
    } else {
      EmbedsWithout(p[1..], i - 1);
      assert Without(p, i)[1..] == Without(p[1..], i - 1);
    }
  }

  lemma {:induction false} EmbedsTransitively(a: Plan, b: Plan, c: Plan)
    requires Embeds(a, b) && Embeds(b, c)
    ensures Embeds(a, c)
    decreases |c|
  {
    if a == [] {
    } else if Stems(b[0], c[0]) && Embeds(b[1..], c[1..]) {
      if Stems(a[0], b[0]) && Embeds(a[1..], b[1..]) {
        EmbedsTransitively(a[1..], b[1..], c[1..]);
      } else {
        EmbedsTransitively(a, b[1..], c[1..]);
      }
    } else {
      EmbedsTransitively(a, b, c[1..]);
    }
  }

  /** A lighter plan made of the operations of q. */
  ghost predicate Reduced(p: Plan, q: Plan) {
    Weight(p) < Weight(q) && Embeds(p, q)
  }

  lemma ReducedTwice(a: Plan, b: Plan, c: Plan)
    requires a == b || Reduced(a, b)
    requires b == c || Reduced(b, c)
    ensures a == c || Reduced(a, c)
  {
    if a != b && b != c { EmbedsTransitively(a, b, c); }
  }

  lemma ReducedByUpdate(plan: Plan, i: nat, m: Mutation)
    requires i < |plan| && OperationWeight(m) < OperationWeight(plan[i].mutation)
    requires Stems(plan[i].(mutation := m), plan[i])
    ensures Reduced(WithMutation(plan, i, m), plan)
  {
    WeightUpdate(plan, i, m);
    EmbedsUpdate(plan, i, plan[i].(mutation := m));
  }

  lemma ReducedByDrop(plan: Plan, i: nat)
    requires i < |plan|
    ensures Reduced(Without(plan, i), plan)
  {
    WeightWithout(plan, i);
    EmbedsWithout(plan, i);
  }

  // -- One-step simplifications of a plan -----------------------------------

  predicate CanZeroId(plan: Plan, i: nat) {
    i < |plan| && plan[i].mutation.id != 0
  }

  predicate CanZeroValue(plan: Plan, i: nat) {
    i < |plan| && !plan[i].mutation.kind.DeleteRow? && plan[i].mutation.value != 0
  }

  predicate CanSimplify(plan: Plan, i: nat, k: Kind) {
    i < |plan| && Complexity(k) < Complexity(plan[i].mutation.kind)
  }

  function ZeroId(plan: Plan, i: nat): Plan
    requires i < |plan|
  {
    WithMutation(plan, i, plan[i].mutation.(id := 0))
  }

  function ZeroValue(plan: Plan, i: nat): Plan
    requires i < |plan|
  {
    WithMutation(plan, i, plan[i].mutation.(value := 0))
  }

  function Simplify(plan: Plan, i: nat, k: Kind): Plan
    requires i < |plan|
  {
    WithMutation(plan, i, plan[i].mutation.(kind := k))
  }

  /** q is p with one cycle dropped, one operand zeroed, or one operation replaced by a simpler kind. */
  ghost predicate Simpler(p: Plan, q: Plan) {
    || (|p| > 1 && exists i: nat :: i < |p| && q == Without(p, i))
    || (exists i: nat :: CanZeroId(p, i) && q == ZeroId(p, i))
    || (exists i: nat :: CanZeroValue(p, i) && q == ZeroValue(p, i))
    || (exists i: nat, k :: CanSimplify(p, i, k) && q == Simplify(p, i, k))
  }

  // -- What one step simpler means ------------------------------------------

  /** A delete is simpler than an update, and both are simpler than an insert. */
  predicate SimplerKind(k: Kind, than: Kind) {
    (than == InsertRow && k != InsertRow) || (than == UpdateRow && k == DeleteRow)
  }

  /** n is m with its id or value zeroed, or of a simpler kind; the value of a delete is left alone. */
  predicate SimplerMutation(n: Mutation, m: Mutation) {
    || (m.id != 0 && n == Mutation(m.kind, 0, m.value))
    || (m.kind != DeleteRow && m.value != 0 && n == Mutation(m.kind, m.id, 0))
    || (SimplerKind(n.kind, m.kind) && n == Mutation(n.kind, m.id, m.value))
  }

  /** Operation i alone differs, and is one step simpler. */
  predicate SimplerAt(p: Plan, q: Plan, i: nat) {
    SameBut(p, q, i) && q[i] == Operation(q[i].mutation, p[i].sourceCycle) && SimplerMutation(q[i].mutation, p[i].mutation)
  }

  lemma UpdateIsSameBut(p: Plan, q: Plan, i: nat, m: Mutation)
    requires i < |p|
    ensures q == WithMutation(p, i, m) <==> SameBut(p, q, i) && q[i] == Operation(m, p[i].sourceCycle)
  {
    if SameBut(p, q, i) && q[i] == Operation(m, p[i].sourceCycle) {
      assert q == p[i := Operation(m, p[i].sourceCycle)];
    }
  }

  /** A plan is one step simpler exactly when one operation is missing, of several, or one operation is simpler. */
  lemma SimplerIff(p: Plan, q: Plan)
    ensures Simpler(p, q) <==> OneOut(p, q) || exists i: nat :: SimplerAt(p, q, i)
  {
    if OneOut(p, q) {
      var i := OneOutIsWithout(p, q);
      assert i < |p| && q == Without(p, i);
    }
    if i: nat :| |p| > 1 && i < |p| && q == Without(p, i) {
      WithoutIsOneOut(p, i);
    }
    SimplerAtIff(p, q);
  }

  lemma SimplerAtIff(p: Plan, q: Plan)
    ensures (exists i: nat :: SimplerAt(p, q, i)) <==>
      || (exists i: nat :: CanZeroId(p, i) && q == ZeroId(p, i))
      || (exists i: nat :: CanZeroValue(p, i) && q == ZeroValue(p, i))
      || (exists i: nat, k :: CanSimplify(p, i, k) && q == Simplify(p, i, k))
  {
    if i: nat :| SimplerAt(p, q, i) {
      StepAtIff(p, q, i);
    } else {
      forall i: nat | i < |p| ensures !(CanZeroId(p, i) && q == ZeroId(p, i)) {
        StepAtIff(p, q, i);
      }
      forall i: nat | i < |p| ensures !(CanZeroValue(p, i) && q == ZeroValue(p, i)) {
        StepAtIff(p, q, i);
      }
      forall i: nat, k | CanSimplify(p, i, k) ensures q != Simplify(p, i, k) {
        StepAtIff(p, q, i);
      }
    }
  }

  lemma StepAtIff(p: Plan, q: Plan, i: nat)
    requires i < |p|
    ensures SimplerAt(p, q, i) <==>
      || (CanZeroId(p, i) && q == ZeroId(p, i)) || (CanZeroValue(p, i) && q == ZeroValue(p, i))
      || (exists k :: CanSimplify(p, i, k) && q == Simplify(p, i, k))
  {
    var m := p[i].mutation;
    UpdateIsSameBut(p, q, i, m.(id := 0));
    UpdateIsSameBut(p, q, i, m.(value := 0));
    forall k ensures q == Simplify(p, i, k) <==> SameBut(p, q, i) && q[i] == Operation(m.(kind := k), p[i].sourceCycle) {
      UpdateIsSameBut(p, q, i, m.(kind := k));
    }
    if SimplerAt(p, q, i) && SimplerKind(q[i].mutation.kind, m.kind) {
      assert CanSimplify(p, i, q[i].mutation.kind);
    }
  }

  /** Where each operation of a reduced plan stands in the plan it was reduced from. */
  lemma {:induction false} EmbedsInOrder(p: Plan, q: Plan) returns (at: seq<nat>)
    requires Embeds(p, q)
    ensures |at| == |p| && (forall i, j :: 0 <= i < j < |p| ==> at[i] < at[j])
    ensures forall i :: 0 <= i < |p| ==> at[i] < |q| && Stems(p[i], q[at[i]])
    decreases |q|
  {
    if p == [] {
      at := [];
    } else if Stems(p[0], q[0]) && Embeds(p[1..], q[1..]) {
      var rest := EmbedsInOrder(p[1..], q[1..]);
      at := [0] + seq(|rest|, i requires 0 <= i < |rest| => rest[i] + 1);
    } else {
      var rest := EmbedsInOrder(p, q[1..]);
      at := seq(|rest|, i requires 0 <= i < |rest| => rest[i] + 1);
    }
  }

  /** It is the recorded operation of that cycle, with operands kept or zeroed and the same or a simpler kind. */
  lemma StemsIff(a: Operation, b: Operation)
    ensures Stems(a, b) <==>
      && a.sourceCycle == b.sourceCycle && a.mutation.id in {b.mutation.id, 0} && a.mutation.value in {b.mutation.value, 0}
      && (a.mutation.kind == b.mutation.kind || SimplerKind(a.mutation.kind, b.mutation.kind))
  {}

  // -- Scenario and plan steps agree ----------------------------------------

  function PlanOf(s: History): Plan {
    if Single(s) then ScenarioMutations(s) else []
  }

  function SetMutation(s: History, i: nat, m: Mutation): History
    requires i < |s.cycles|
  {
    s.(cycles := s.cycles[i := s.cycles[i].(mutations := [m])])
  }

  lemma SetMutationPlan(s: History, i: nat, m: Mutation)
    requires Single(s) && i < |s.cycles|
    ensures Single(SetMutation(s, i, m))
    ensures PlanOf(SetMutation(s, i, m)) == WithMutation(PlanOf(s), i, m)
  {}

  lemma DropCyclePlan(s: History, i: nat)
    requires Single(s) && i < |s.cycles|
    ensures Single(DropCycle(s, i)) && PlanOf(DropCycle(s, i)) == Without(PlanOf(s), i)
  {}

  lemma {:induction false} ChainKeepsSingle(path: seq<History>, s: History, t: History)
    requires Chain(path, s, t) && Single(s)
    ensures Single(t) && (t == s || Reduced(PlanOf(t), PlanOf(s)))
  {
    if |path| > 1 {
      var shorter := path[..|path| - 1];
      var u := path[|path| - 2];
      ChainKeepsSingle(shorter, s, u);
      assert OneSmaller(u, t);
      assert forall ci: nat, mi: nat :: !CanDropMutation(u, ci, mi);
      assert forall si: nat, ti: nat :: !CanDropTuple(u, si, ti);
      var i: nat :| CanDropCycle(u, i) && t == DropCycle(u, i);
      DropCyclePlan(u, i);
      ReducedByDrop(PlanOf(u), i);
      ReducedTwice(PlanOf(t), PlanOf(u), PlanOf(s));
    }
  }

  // -- What has been turned down so far -------------------------------------

  type Log = seq<Attempt<Plan>>

  ghost predicate ZerosDown(log: Log, sig: string, p: Plan, i: nat) {
    && (CanZeroId(p, i) ==> TurnedDown(log, ZeroId(p, i), sig))
    && (CanZeroValue(p, i) ==> TurnedDown(log, ZeroValue(p, i), sig))
  }

  ghost predicate KindsDown(log: Log, sig: string, p: Plan, i: nat) {
    forall k :: CanSimplify(p, i, k) ==> TurnedDown(log, Simplify(p, i, k), sig)
  }

  ghost predicate DropDown(log: Log, sig: string, p: Plan, i: nat) {
    i < |p| && |p| > 1 ==> TurnedDown(log, Without(p, i), sig)
  }

  lemma ZerosStayDown(before: Log, log: Log, sig: string, p: Plan, i: nat)
    requires before <= log && ZerosDown(before, sig, p, i)
    ensures ZerosDown(log, sig, p, i)
  {
    if CanZeroId(p, i) { TurnedDownStays(before, log, ZeroId(p, i), sig); }
    if CanZeroValue(p, i) { TurnedDownStays(before, log, ZeroValue(p, i), sig); }
  }

  lemma KindsStayDown(before: Log, log: Log, sig: string, p: Plan, i: nat)
    requires before <= log && KindsDown(before, sig, p, i)
    ensures KindsDown(log, sig, p, i)
  {
    forall k | CanSimplify(p, i, k) ensures TurnedDown(log, Simplify(p, i, k), sig) {
      TurnedDownStays(before, log, Simplify(p, i, k), sig);
    }
  }

  /** No one-step simplification of the plan was kept. */
  ghost predicate LocallyMinimal(log: Log, sig: string, plan: Plan) {
    forall q :: Simpler(plan, q) ==> TurnedDown(log, q, sig)
  }

  lemma AllDownIsLocallyMinimal(dropLog: Log, zeroLog: Log, log: Log, sig: string, p: Plan)
    requires dropLog <= zeroLog <= log
    requires forall i :: 0 <= i < |p| ==> DropDown(dropLog, sig, p, i)
    requires forall i :: 0 <= i < |p| ==> ZerosDown(zeroLog, sig, p, i)
    requires forall i :: 0 <= i < |p| ==> KindsDown(log, sig, p, i)
    ensures LocallyMinimal(log, sig, p)
  {
    forall q | Simpler(p, q) ensures TurnedDown(log, q, sig) {
      if i: nat :| |p| > 1 && i < |p| && q == Without(p, i) {
        assert DropDown(dropLog, sig, p, i);
        TurnedDownStays(dropLog, log, q, sig);
      } else if i: nat :| CanZeroId(p, i) && q == ZeroId(p, i) {
        ZerosStayDown(zeroLog, log, sig, p, i);
      } else if i: nat :| CanZeroValue(p, i) && q == ZeroValue(p, i) {
        ZerosStayDown(zeroLog, log, sig, p, i);
      } else {
        var i: nat, k :| CanSimplify(p, i, k) && q == Simplify(p, i, k);
        assert KindsDown(log, sig, p, i);
      }
    }
  }

  /** Either the history was reduced, or the first n cycles have been tried in vain. */
  ghost predicate ZerosDownTo(log: Log, sig: string, s: History, t: History, n: nat) {
    && (t == s || Reduced(PlanOf(t), PlanOf(s)))
    && (t == s ==> forall i :: 0 <= i < n ==> ZerosDown(log, sig, PlanOf(s), i))
  }

  lemma ZerosDownNext(before: Log, log: Log, sig: string, s: History, u: History, t: History, n: nat)
    requires before <= log && ZerosDownTo(before, sig, s, u, n)
    requires (t == u || Reduced(PlanOf(t), PlanOf(u))) && (t == u ==> ZerosDown(log, sig, PlanOf(u), n))
    ensures ZerosDownTo(log, sig, s, t, n + 1)
  {
    ReducedTwice(PlanOf(t), PlanOf(u), PlanOf(s));
    if t == s {
      assert u == s;
      forall i | 0 <= i < n ensures ZerosDown(log, sig, PlanOf(s), i) {
        ZerosStayDown(before, log, sig, PlanOf(s), i);
      }
    }
  }

  /** Either the history was reduced, or the first n cycles have been tried in vain. */
  ghost predicate KindsDownTo(log: Log, sig: string, s: History, t: History, n: nat) {
    && (t == s || Reduced(PlanOf(t), PlanOf(s)))
    && (t == s ==> forall i :: 0 <= i < n ==> KindsDown(log, sig, PlanOf(s), i))
  }

  lemma KindsDownNext(before: Log, log: Log, sig: string, s: History, u: History, t: History, n: nat)
    requires before <= log && KindsDownTo(before, sig, s, u, n)
    requires (t == u || Reduced(PlanOf(t), PlanOf(u))) && (t == u ==> KindsDown(log, sig, PlanOf(u), n))
    ensures KindsDownTo(log, sig, s, t, n + 1)
  {
    ReducedTwice(PlanOf(t), PlanOf(u), PlanOf(s));
    if t == s {
      assert u == s;
      forall i | 0 <= i < n ensures KindsDown(log, sig, PlanOf(s), i) {
        KindsStayDown(before, log, sig, PlanOf(s), i);
      }
    }
  }

  // -- Which attempts are made, and in which order --------------------------

  type HistoryOracle = (nat, History) -> bool

  /** Cycle i gets mutation m, if the attempt is kept. */
  ghost function Replaced(o: HistoryOracle, u: Run<History>, i: nat, m: Mutation): (v: Run<History>)
    requires Single(u.now) && i < |u.now.cycles|
    ensures Single(v.now) && |v.now.cycles| == |u.now.cycles|
  {
    SetMutationPlan(u.now, i, m);
    Tried(o, u, SetMutation(u.now, i, m))
  }

  /** The id of cycle i, then its value; zeros, and the value of a delete, are passed over. */
  ghost function ZeroAt(o: HistoryOracle, u: Run<History>, i: nat): (v: Run<History>)
    requires Single(u.now) && i < |u.now.cycles|
    ensures Single(v.now) && |v.now.cycles| == |u.now.cycles|
  {
    var m := u.now.cycles[i].mutations[0];
    var v := if m.id != 0 then Replaced(o, u, i, m.(id := 0)) else u;
    var n := v.now.cycles[i].mutations[0];
    if n.kind != DeleteRow && n.value != 0 then Replaced(o, v, i, n.(value := 0)) else v
  }

  ghost function ZerosFrom(o: HistoryOracle, u: Run<History>, i: nat): (v: Run<History>)
    requires Single(u.now) && i <= |u.now.cycles|
    ensures Single(v.now) && |v.now.cycles| == |u.now.cycles|
    decreases |u.now.cycles| - i
  {
    if i == |u.now.cycles| then u else ZerosFrom(o, ZeroAt(o, u, i), i + 1)
  }

  /** One kind, if it is simpler than the kind at the start of the turn. */
  ghost function KindTry(o: HistoryOracle, u: Run<History>, i: nat, start: Kind, k: Kind): (v: Run<History>)
    requires Single(u.now) && i < |u.now.cycles|
    ensures Single(v.now) && |v.now.cycles| == |u.now.cycles|
  {
    if SimplerKind(k, start) then Replaced(o, u, i, u.now.cycles[i].mutations[0].(kind := k)) else u
  }

  /** Delete, then update; an insert is never simpler. */
  ghost function KindAt(o: HistoryOracle, u: Run<History>, i: nat): (v: Run<History>)
    requires Single(u.now) && i < |u.now.cycles|
    ensures Single(v.now) && |v.now.cycles| == |u.now.cycles|
  {
    var start := u.now.cycles[i].mutations[0].kind;
    KindTry(o, KindTry(o, u, i, start, DeleteRow), i, start, UpdateRow)
  }

  ghost function KindsFrom(o: HistoryOracle, u: Run<History>, i: nat): (v: Run<History>)
    requires Single(u.now) && i <= |u.now.cycles|
    ensures Single(v.now) && |v.now.cycles| == |u.now.cycles|
    decreases |u.now.cycles| - i
  {
    if i == |u.now.cycles| then u else KindsFrom(o, KindAt(o, u, i), i + 1)
  }

  // -- The passes -----------------------------------------------------------

  type HistoryReplayer = Replayer<History, Plan>

  /** The history is well formed and reproduced the recorded failure. */
  ghost predicate Current(r: HistoryReplayer, s: History)
    reads r
  {
    r.Valid() && r.plan == PlanOf && Single(s) && r.Reproduced(s)
  }

  method TryMutation(r: HistoryReplayer, t: History, i: nat, m: Mutation) returns (ok: bool, t': History)
    requires Current(r, t) && i < |t.cycles|
    modifies r
    ensures Current(r, t') && r.Grew() && |t'.cycles| == |t.cycles|
    ensures if ok then PlanOf(t') == WithMutation(PlanOf(t), i, m)
            else t' == t && TurnedDown(r.attempts, WithMutation(PlanOf(t), i, m), r.signature)
    ensures Run(t', |r.attempts|) == Replaced(Oracle(r), Run(t, |old(r.attempts)|), i, m)
  {
    var candidate := SetMutation(t, i, m);
    SetMutationPlan(t, i, m);
    ok := r.Replay(candidate);
    t' := if ok then candidate else t;
  }

  /** One cycle of the operand loop: first the id, then the value; a deleted row's value is left alone. */
  method ZeroOperand(s: History, r: HistoryReplayer, index: nat) returns (t: History)
    requires Current(r, s) && index < |s.cycles|
    modifies r
    ensures Current(r, t) && r.Grew() && |t.cycles| == |s.cycles|
    ensures t == s || Reduced(PlanOf(t), PlanOf(s))
    ensures t == s ==> ZerosDown(r.attempts, r.signature, PlanOf(s), index)
    ensures Run(t, |r.attempts|) == ZeroAt(Oracle(r), Run(s, |old(r.attempts)|), index)
  {
    var ok;
    t := s;
    var m := t.cycles[index].mutations[0];
    if m.id != 0 {
      ReducedByUpdate(PlanOf(t), index, m.(id := 0));
      ok, t := TryMutation(r, t, index, m.(id := 0));
    }
    m := t.cycles[index].mutations[0];
    if !m.kind.DeleteRow? && m.value != 0 {
      ReducedByUpdate(PlanOf(t), index, m.(value := 0));
      ghost var first := PlanOf(t);
      ok, t := TryMutation(r, t, index, m.(value := 0));
      ReducedTwice(PlanOf(t), first, PlanOf(s));
    }
  }

  method ZeroOperands(s: History, r: HistoryReplayer) returns (t: History)
    requires Current(r, s)
    modifies r
    ensures Current(r, t) && r.Longer()
    ensures t == s || Reduced(PlanOf(t), PlanOf(s))
    ensures t == s ==> forall i :: 0 <= i < |PlanOf(s)| ==> ZerosDown(r.attempts, r.signature, PlanOf(s), i)
    ensures Run(t, |r.attempts|) == ZerosFrom(Oracle(r), Run(s, |old(r.attempts)|), 0)
  {
    t := s;
    ghost var goal := ZerosFrom(Oracle(r), Run(s, |r.attempts|), 0);
    for index := 0 to |s.cycles|
      invariant Current(r, t) && r.Longer() && |t.cycles| == |s.cycles|
      invariant goal == ZerosFrom(Oracle(r), Run(t, |r.attempts|), index)
      invariant ZerosDownTo(r.attempts, r.signature, s, t, index)
    {
      ghost var before, log := t, r.attempts;
      t := ZeroOperand(t, r, index);
      ZerosDownNext(log, r.attempts, r.signature, s, before, t, index);
    }
  }

  const KINDS: seq<Kind> := [DeleteRow, UpdateRow, InsertRow]

  /** The run after the first j kinds of the turn. */
  ghost function KindsSoFar(o: HistoryOracle, u: Run<History>, i: nat, j: nat): (v: Run<History>)
    requires Single(u.now) && i < |u.now.cycles| && j <= 3
    ensures Single(v.now) && |v.now.cycles| == |u.now.cycles|
  {
    var start := u.now.cycles[i].mutations[0].kind;
    if j == 0 then u else if j == 1 then KindTry(o, u, i, start, DeleteRow) else KindAt(o, u, i)
  }

  lemma KindsStep(o: HistoryOracle, u: Run<History>, i: nat, j: nat)
    requires Single(u.now) && i < |u.now.cycles| && j < 3
    ensures KindsSoFar(o, u, i, j + 1) == KindTry(o, KindsSoFar(o, u, i, j), i, u.now.cycles[i].mutations[0].kind, KINDS[j])
  {}

  /** The first j kinds of the turn were tried: one was kept, or each simpler one was refused. */
  ghost predicate KindsTried(log: Log, sig: string, s: History, t: History, index: nat, j: nat)
    requires j <= 3
  {
    && (t == s || exists k :: CanSimplify(PlanOf(s), index, k) && PlanOf(t) == Simplify(PlanOf(s), index, k))
    && (t == s ==> forall i :: 0 <= i < j && CanSimplify(PlanOf(s), index, KINDS[i]) ==>
          TurnedDown(log, Simplify(PlanOf(s), index, KINDS[i]), sig))
  }

  method KindTurn(r: HistoryReplayer, ghost s: History, t: History, index: nat, start: Mutation, j: nat) returns (t': History)
    requires Current(r, t) && Single(s) && index < |s.cycles| == |t.cycles| && j < 3
    requires start == s.cycles[index].mutations[0] && KindsTried(r.attempts, r.signature, s, t, index, j)
    modifies r
    ensures Current(r, t') && r.Grew() && |t'.cycles| == |t.cycles|
    ensures KindsTried(r.attempts, r.signature, s, t', index, j + 1)
    ensures Run(t', |r.attempts|) == KindTry(Oracle(r), Run(t, |old(r.attempts)|), index, start.kind, KINDS[j])
  {
    t' := t;
    var kind := KINDS[j];
    if Complexity(kind) >= Complexity(start.kind) {
      return;
    }
    var m := t.cycles[index].mutations[0];
    assert WithMutation(PlanOf(t), index, m.(kind := kind)) == Simplify(PlanOf(s), index, kind);
    var ok;
    ok, t' := TryMutation(r, t, index, m.(kind := kind));
  }

  lemma AllKindsTried(log: Log, sig: string, s: History, t: History, index: nat)
    requires Single(s) && index < |s.cycles| && KindsTried(log, sig, s, t, index, 3)
    ensures t == s || Reduced(PlanOf(t), PlanOf(s))
    ensures t == s ==> KindsDown(log, sig, PlanOf(s), index)
  {
    if t != s {
      var k :| CanSimplify(PlanOf(s), index, k) && PlanOf(t) == Simplify(PlanOf(s), index, k);
      ReducedByUpdate(PlanOf(s), index, PlanOf(s)[index].mutation.(kind := k));
    }
    assert KINDS[0] == DeleteRow && KINDS[1] == UpdateRow && KINDS[2] == InsertRow;
  }

  /**
   One cycle of the kind loop. The complexity test uses the kind the cycle had at
   the start, so an accepted delete may still be replaced by an accepted update.
   */
  method SimplifyKind(s: History, r: HistoryReplayer, index: nat) returns (t: History)
    requires Current(r, s) && index < |s.cycles|
    modifies r
    ensures Current(r, t) && r.Grew() && |t.cycles| == |s.cycles|
    ensures t == s || Reduced(PlanOf(t), PlanOf(s))
    ensures t == s ==> KindsDown(r.attempts, r.signature, PlanOf(s), index)
    ensures Run(t, |r.attempts|) == KindAt(Oracle(r), Run(s, |old(r.attempts)|), index)
  {
    t := s;
    var start := s.cycles[index].mutations[0];
    ghost var first := Run(s, |r.attempts|);
    for j := 0 to |KINDS|
      invariant Current(r, t) && r.Longer() && |t.cycles| == |s.cycles|
      invariant KindsTried(r.attempts, r.signature, s, t, index, j)
      invariant Run(t, |r.attempts|) == KindsSoFar(Oracle(r), first, index, j)
    {
      KindsStep(Oracle(r), first, index, j);
      t := KindTurn(r, s, t, index, start, j);
    }
    AllKindsTried(r.attempts, r.signature, s, t, index);
    r.LongerGrew();
  }

  method SimplifyKinds(s: History, r: HistoryReplayer) returns (t: History)
    requires Current(r, s)
    modifies r
    ensures Current(r, t) && r.Longer()
    ensures t == s || Reduced(PlanOf(t), PlanOf(s))
    ensures t == s ==> forall i :: 0 <= i < |PlanOf(s)| ==> KindsDown(r.attempts, r.signature, PlanOf(s), i)
    ensures Run(t, |r.attempts|) == KindsFrom(Oracle(r), Run(s, |old(r.attempts)|), 0)
  {
    t := s;
    ghost var goal := KindsFrom(Oracle(r), Run(s, |r.attempts|), 0);
    for index := 0 to |s.cycles|
      invariant Current(r, t) && r.Longer() && |t.cycles| == |s.cycles|
      invariant goal == KindsFrom(Oracle(r), Run(t, |r.attempts|), index)
      invariant KindsDownTo(r.attempts, r.signature, s, t, index)
    {
      ghost var before, log := t, r.attempts;
      t := SimplifyKind(t, r, index);
      KindsDownNext(log, r.attempts, r.signature, s, before, t, index);
    }
  }

  /** The scenario shrinker on a history: cycles only. */
  method DropCycles(s: History, r: HistoryReplayer) returns (t: History)
    requires Current(r, s)
    modifies r
    ensures Current(r, t) && r.Longer()
    ensures t == s || Reduced(PlanOf(t), PlanOf(s))
    ensures forall i :: 0 <= i < |PlanOf(t)| ==> DropDown(r.attempts, r.signature, PlanOf(t), i)
    ensures Run(t, |r.attempts|) == ShrinkFrom(Oracle(r), Run(s, |old(r.attempts)|))
  {
    ghost var path;
    t, path := ShrinkScenario(s, r);
    ChainKeepsSingle(path, s, t);
    assert |path| > 1 ==> r.Reproduced(path[|path| - 1]);
    forall i | 0 <= i < |PlanOf(t)| && |PlanOf(t)| > 1 ensures DropDown(r.attempts, r.signature, PlanOf(t), i) {
      DropCyclePlan(t, i);
      assert CanDropCycle(t, i);
      assert OneSmaller(t, DropCycle(t, i));
    }
  }

  // -- The whole run --------------------------------------------------------

  /** a is b, or has a smaller plan. */
  ghost predicate NoLarger(a: History, b: History) {
    a == b || Reduced(PlanOf(a), PlanOf(b))
  }

  lemma RoundEnds(s: History, dropped: History, zeroed: History, t: History, dropLog: Log, zeroLog: Log, log: Log, sig: string)
    requires NoLarger(dropped, s) && NoLarger(zeroed, dropped) && NoLarger(t, zeroed) && dropLog <= zeroLog <= log
    requires forall i :: 0 <= i < |PlanOf(dropped)| ==> DropDown(dropLog, sig, PlanOf(dropped), i)
    requires zeroed == dropped ==> forall i :: 0 <= i < |PlanOf(dropped)| ==> ZerosDown(zeroLog, sig, PlanOf(dropped), i)
    requires t == zeroed ==> forall i :: 0 <= i < |PlanOf(zeroed)| ==> KindsDown(log, sig, PlanOf(zeroed), i)
    ensures NoLarger(t, s) && (t == s ==> LocallyMinimal(log, sig, PlanOf(s)))
  {
    ReducedTwice(PlanOf(zeroed), PlanOf(dropped), PlanOf(s));
    ReducedTwice(PlanOf(t), PlanOf(zeroed), PlanOf(s));
    if t == s {
      AllDownIsLocallyMinimal(dropLog, zeroLog, log, sig, PlanOf(s));
    }
  }

  /** Cycles are dropped, then operands zeroed, then kinds simplified. */
  ghost predicate OneRound(o: HistoryOracle, u: Run<History>, v: Run<History>) {
    && Single(ShrinkFrom(o, u).now)
    && v == Simplified(o, ShrinkFrom(o, u))
  }

  ghost function Simplified(o: HistoryOracle, u: Run<History>): Run<History>
    requires Single(u.now)
  {
    KindsFrom(o, ZerosFrom(o, u, 0), 0)
  }

  /** The two passes behind the scenario shrinker. */
  method SimplifyOperations(s: History, r: HistoryReplayer) returns (t: History, ghost zeroLog: Log, ghost zeroed: History)
    requires Current(r, s)
    modifies r
    ensures Current(r, t) && r.Longer() && old(r.attempts) <= zeroLog <= r.attempts
    ensures NoLarger(zeroed, s) && NoLarger(t, zeroed)
    ensures zeroed == s ==> forall i :: 0 <= i < |PlanOf(s)| ==> ZerosDown(zeroLog, r.signature, PlanOf(s), i)
    ensures t == zeroed ==> forall i :: 0 <= i < |PlanOf(zeroed)| ==> KindsDown(r.attempts, r.signature, PlanOf(zeroed), i)
    ensures Run(t, |r.attempts|) == Simplified(Oracle(r), Run(s, |old(r.attempts)|))
  {
    t := ZeroOperands(s, r);
    zeroLog, zeroed := r.attempts, t;
    t := SimplifyKinds(t, r);
  }

  /** One round of the outer loop; without progress everything one step simpler was turned down. */
  method Round(s: History, r: HistoryReplayer) returns (t: History)
    requires Current(r, s)
    modifies r
    ensures Current(r, t) && r.Longer()
    ensures t == s || Reduced(PlanOf(t), PlanOf(s))
    ensures t == s ==> LocallyMinimal(r.attempts, r.signature, PlanOf(s))
    ensures OneRound(Oracle(r), Run(s, |old(r.attempts)|), Run(t, |r.attempts|))
  {
    t := DropCycles(s, r);
    ghost var dropLog, dropped := r.attempts, t;
    ghost var zeroLog, zeroed;
    t, zeroLog, zeroed := SimplifyOperations(t, r);
    RoundEnds(s, dropped, zeroed, t, dropLog, zeroLog, r.attempts, r.signature);
  }

  datatype Outcome =
    | TooManyMutations
    | IllegalHistory
    | NotReproduced
    | Minimized(plan: Plan, finalRun: nat, signature: string, attempts: Log)

  /** Attempt k was refused as illegal, or is what the oracle answered. */
  ghost predicate Logged(seed: int, run: (nat, Plan) -> Option<string>, k: nat, a: Attempt<Plan>) {
    if Legal(InitialRows(seed), a.plan) then a == Ran(a.plan, run(k, a.plan)) else a == Rejected(a.plan)
  }

  /** What a report of a finished run says. */
  ghost predicate GoodReport(seed: int, run: (nat, Plan) -> Option<string>, recorded: Plan, o: Outcome)
    requires o.Minimized?
  {
    && Legal(InitialRows(seed), o.plan)
    && (o.plan == recorded || Reduced(o.plan, recorded))
    && |o.attempts| > 0 && o.attempts[0] == Ran(recorded, Some(o.signature))
    && (forall k :: 0 <= k < |o.attempts| ==> Logged(seed, run, k, o.attempts[k]))
    && o.finalRun < |o.attempts| && o.attempts[o.finalRun] == Ran(o.plan, Some(o.signature))
    && LocallyMinimal(o.attempts, o.signature, o.plan)
  }

  /** With an oracle that always answers alike, nothing one step simpler is legal and fails the same way. */
  ghost predicate OneMinimal(seed: int, run: (nat, Plan) -> Option<string>, plan: Plan, signature: string) {
    forall q :: Simpler(plan, q) ==> !(Legal(InitialRows(seed), q) && run(0, q) == Some(signature))
  }

  /** `shrink`: the run of a plan, whatever it answers, is the parameter `run`. */
  method Shrink(seed: int, configuredCycles: int, mutations: Plan, run: (nat, Plan) -> Option<string>)
    returns (o: Outcome)
    ensures o.TooManyMutations? <==> |mutations| > configuredCycles
    ensures o.IllegalHistory? <==> |mutations| <= configuredCycles && !Legal(InitialRows(seed), mutations)
    ensures o.NotReproduced? <==>
      |mutations| <= configuredCycles && Legal(InitialRows(seed), mutations) && run(0, mutations).None?
    ensures o.Minimized? ==> GoodReport(seed, run, mutations, o)
    ensures o.Minimized? && Deterministic(run) ==> OneMinimal(seed, run, o.plan, o.signature)
  {
    if |mutations| > configuredCycles {
      return TooManyMutations;
    }
    var legal := LegalMutationPlan(seed, mutations);
    if !legal {
      return IllegalHistory;
    }
    var baseline := run(0, mutations);
    if baseline.None? {
      return NotReproduced;
    }
    var r := new Replayer<History, Plan>(PlanOf, p => Legal(InitialRows(seed), p), run, baseline.value, mutations);
    var s := ReplayScenario(mutations);
    PlanRoundTrip(mutations);
    while true
      invariant Current(r, s) && fresh(r) && [r.Match(mutations)] <= r.attempts
      invariant PlanOf(s) == mutations || Reduced(PlanOf(s), mutations)
      decreases Weight(PlanOf(s))
    {
      var before := s;
      s := Round(s, r);
      ReducedTwice(PlanOf(s), PlanOf(before), mutations);
      if s == before {
        break;
      }
    }
    var plan := ScenarioMutations(s);
    o := Minimized(plan, r.successful[plan], r.signature, r.attempts);
    EndIsGood(r, seed, mutations, o);
  }

  /** What the log says about the plan that is left. */
  lemma EndIsGood(r: HistoryReplayer, seed: int, recorded: Plan, o: Outcome)
    requires r.Valid() && o.Minimized? && o.plan in r.successful
    requires o == Minimized(o.plan, r.successful[o.plan], r.signature, r.attempts)
    requires forall p :: r.legal(p) <==> Legal(InitialRows(seed), p)
    requires [r.Match(recorded)] <= r.attempts && (o.plan == recorded || Reduced(o.plan, recorded))
    requires LocallyMinimal(r.attempts, r.signature, o.plan)
    ensures GoodReport(seed, r.run, recorded, o)
    ensures Deterministic(r.run) ==> OneMinimal(seed, r.run, o.plan, o.signature)
  {
    assert r.attempts[0] == r.Match(recorded);
    assert r.attempts[o.finalRun] == r.Answer(o.finalRun, o.plan);
    if Deterministic(r.run) {
      forall q | Simpler(o.plan, q) ensures !(Legal(InitialRows(seed), q) && r.run(0, q) == Some(r.signature)) {
        assert TurnedDown(r.attempts, q, r.signature);
        var k :| 0 <= k < |r.attempts| && r.attempts[k].plan == q && r.attempts[k] != Ran(q, Some(r.signature));
        assert r.attempts[k] == r.Answer(k, q);
        assert r.run(k, q) == r.run(0, q);
      }
    }
  }
}
