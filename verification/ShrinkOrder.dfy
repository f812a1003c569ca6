/** The order of the attempts: what is left when every attempt is kept, and what the first attempt is. */
module ShrinkOrder {
  import opened Text
  import opened InsertValues
  import opened InsertRoundTrip
  import opened Replay
  import opened DvmShrink
  import opened MutationPlan
  import opened RecoveryShrink

  /** Every candidate fails. */
  ghost predicate Always<S(!new)>(o: (nat, S) -> bool) {
    forall k, s :: o(k, s)
  }

  // -- Cycles and mutations -------------------------------------------------

  lemma {:induction false} FirstCycleStays<L(!new), M(!new)>(o: (nat, Scenario<L, M>) -> bool, u: Run<Scenario<L, M>>)
    requires Always(o) && u.now.cycles != []
    ensures var n := |u.now.cycles|; CyclesDown(o, u, n) == Run(u.now.(cycles := u.now.cycles[..1]), u.used + n - 1)
    decreases |u.now.cycles|
  {
    var cycles, n := u.now.cycles, |u.now.cycles|;
    if n == 1 {
      assert cycles[..1] == cycles;
    } else {
      var v := Tried(o, u, DropCycle(u.now, n - 1));
      assert v.now.cycles == cycles[..n - 1] && cycles[..n - 1][..1] == cycles[..1];
      FirstCycleStays(o, v);
    }
  }

  function OnlyFirst<L, M>(c: Cycle<L, M>): Cycle<L, M>
    requires c.mutations != []
  {
    c.(mutations := c.mutations[..1])
  }

  lemma {:induction false} FirstMutationStays<L(!new), M(!new)>(
      o: (nat, Scenario<L, M>) -> bool, u: Run<Scenario<L, M>>, ci: nat)
    requires Always(o) && ci < |u.now.cycles| && u.now.cycles[ci].mutations != []
    ensures var n := |u.now.cycles[ci].mutations|;
      MutationsDown(o, u, ci, n) == Run(u.now.(cycles := u.now.cycles[ci := OnlyFirst(u.now.cycles[ci])]), u.used + n - 1)
    decreases |u.now.cycles[ci].mutations|
  {
    var c, n := u.now.cycles[ci], |u.now.cycles[ci].mutations|;
    if n == 1 {
      assert c.mutations[..1] == c.mutations && u.now.cycles[ci := c] == u.now.cycles;
    } else {
      var v := Tried(o, u, DropMutation(u.now, ci, n - 1));
      assert v.now.cycles[ci].mutations == c.mutations[..n - 1] && c.mutations[..n - 1][..1] == c.mutations[..1];
      FirstMutationStays(o, v, ci);
      assert v.now.cycles[ci := OnlyFirst(v.now.cycles[ci])] == u.now.cycles[ci := OnlyFirst(c)];
    }
  }

  // -- Rows -----------------------------------------------------------------

  /** No parenthesis opens behind the last row, if there are rows. */
  predicate Simple(sql: string) {
    ParseValues(sql).Some? ==> Opens(ParseValues(sql).value.suffix) == 0
  }

  function FirstRow(sql: string): string {
    if TupleCount(sql) <= 1 then sql
    else var p := ParseValues(sql).value; Rebuild(p.(tuples := p.tuples[..1]))
  }

  lemma FirstRows(sql: string, n: nat)
    requires ParseValues(sql).Some? && Simple(sql) && 1 <= n <= TupleCount(sql)
    ensures var p := ParseValues(sql).value; var q := p.(tuples := p.tuples[..n]);
      ParseValues(Rebuild(q)) == Some(q) && Simple(Rebuild(q))
  {
    RebuiltParsesBack(sql, ParseValues(sql).value.tuples[..n]);
  }

  lemma {:induction false} FirstRowStays<L(!new), M(!new)>(o: (nat, Scenario<L, M>) -> bool, u: Run<Scenario<L, M>>, si: nat)
    requires Always(o) && si < |u.now.initialData| && Simple(u.now.initialData[si])
    ensures var sql := u.now.initialData[si];
      TuplesDown(o, u, si, TupleCount(sql)).now == u.now.(initialData := u.now.initialData[si := FirstRow(sql)])
    decreases TupleCount(u.now.initialData[si])
  {
    var data, sql, n := u.now.initialData, u.now.initialData[si], TupleCount(u.now.initialData[si]);
    if n <= 1 {
      assert data[si := sql] == data;
      LastRowStays(o, u, si);
    } else {
      var p := ParseValues(sql).value;
      var q := p.(tuples := p.tuples[..n - 1]);
      var v := Tried(o, u, DropTuple(u.now, si, n - 1));
      assert Without(p.tuples, n - 1) == p.tuples[..n - 1];
      FirstRows(sql, n - 1);
      assert v.now.initialData[si] == Rebuild(q);
      FirstRowStays(o, v, si);
      SameFirstRow(sql, n - 1);
      assert data[si := Rebuild(q)][si := FirstRow(sql)] == data[si := FirstRow(sql)];
      NextTupleDown(o, u, si, n - 1);
    }
  }

  lemma LastRowStays<L(!new), M(!new)>(o: (nat, Scenario<L, M>) -> bool, u: Run<Scenario<L, M>>, si: nat)
    requires si < |u.now.initialData| && TupleCount(u.now.initialData[si]) <= 1
    ensures TuplesDown(o, u, si, TupleCount(u.now.initialData[si])) == u
  {
    if TupleCount(u.now.initialData[si]) == 1 {
      NextTupleDown(o, u, si, 0);
    }
  }

  lemma SameFirstRow(sql: string, n: nat)
    requires ParseValues(sql).Some? && Simple(sql) && 1 <= n < TupleCount(sql)
    ensures var p := ParseValues(sql).value; FirstRow(Rebuild(p.(tuples := p.tuples[..n]))) == FirstRow(sql)
  {
    var p := ParseValues(sql).value;
    FirstRows(sql, n);
    assert p.tuples[..n][..1] == p.tuples[..1];
  }

  lemma FirstRowIsFirst(sql: string)
    requires Simple(sql)
    ensures FirstRow(FirstRow(sql)) == FirstRow(sql) && Simple(FirstRow(sql))
  {
    if TupleCount(sql) > 1 {
      FirstRows(sql, 1);
    }
  }

  // -- The whole run --------------------------------------------------------

  /** Statements from si on reduced to their first rows. */
  function FirstRowsFrom(data: seq<string>, si: nat): (r: seq<string>)
    requires si <= |data|
    ensures |r| == |data| && forall i :: 0 <= i < |data| ==> r[i] == if i < si then data[i] else FirstRow(data[i])
  {
    data[..si] + seq(|data| - si, i requires 0 <= i < |data| - si => FirstRow(data[si + i]))
  }

  lemma {:induction false} FirstRowsStay<L(!new), M(!new)>(o: (nat, Scenario<L, M>) -> bool, u: Run<Scenario<L, M>>, si: nat)
    requires Always(o) && si <= |u.now.initialData| && forall sql :: sql in u.now.initialData ==> Simple(sql)
    ensures TuplesFrom(o, u, si).now == u.now.(initialData := FirstRowsFrom(u.now.initialData, si))
    decreases |u.now.initialData| - si
  {
    var data := u.now.initialData;
    if si == |data| {
      assert FirstRowsFrom(data, si) == data;
    } else {
      var v := TuplesDown(o, u, si, TupleCount(data[si]));
      assert data[si] in data;
      FirstRowStays(o, u, si);
      FirstRowIsFirst(data[si]);
      assert forall sql :: sql in v.now.initialData ==> sql in data || sql == FirstRow(data[si]);
      FirstRowsStay(o, v, si + 1);
      assert FirstRowsFrom(data[si := FirstRow(data[si])], si + 1) == FirstRowsFrom(data, si);
    }
  }

  /** What a pass leaves: the first mutation of the first cycle, and the first row of each statement. */
  function TheFirst<L, M>(s: Scenario<L, M>): Scenario<L, M>
    requires s.cycles != [] && s.cycles[0].mutations != []
  {
    Scenario([Cycle(s.cycles[0].tag, [s.cycles[0].mutations[0]])], FirstRowsFrom(s.initialData, 0))
  }

  ghost predicate Plain<L, M>(s: Scenario<L, M>) {
    NoneEmpty(s) && forall sql :: sql in s.initialData ==> Simple(sql)
  }

  lemma PassLeavesTheFirst<L(!new), M(!new)>(o: (nat, Scenario<L, M>) -> bool, u: Run<Scenario<L, M>>)
    requires Always(o) && Plain(u.now)
    ensures u.now.cycles[0] in u.now.cycles && PassFrom(o, u).now == TheFirst(u.now)
  {
    var c := u.now.cycles[0];
    assert c in u.now.cycles;
    FirstCycleStays(o, u);
    var a := CyclesDown(o, u, |u.now.cycles|);
    FirstMutationStays(o, a, 0);
    var b := MutationsDown(o, a, 0, |c.mutations|);
    assert b.now.cycles == [OnlyFirst(c)] && c.mutations[..1] == [c.mutations[0]];
    assert MutationsFrom(o, b, 1) == b && MutationsFrom(o, a, 0) == b;
    FirstRowsStay(o, b, 0);
  }

  lemma TheFirstIsPlain<L, M>(s: Scenario<L, M>)
    requires Plain(s) && s.cycles[0] in s.cycles
    ensures Plain(TheFirst(s)) && TheFirst(TheFirst(s)) == TheFirst(s)
  {
    var data := s.initialData;
    forall i | 0 <= i < |data| ensures Simple(FirstRow(data[i])) && FirstRow(FirstRow(data[i])) == FirstRow(data[i]) {
      assert data[i] in data;
      FirstRowIsFirst(data[i]);
    }
    assert FirstRowsFrom(FirstRowsFrom(data, 0), 0) == FirstRowsFrom(data, 0);
  }

  /** When every candidate fails, the first mutation of the first cycle and the first rows are left: the last go first. */
  lemma AlwaysFailingLeavesTheFirst<L(!new), M(!new)>(o: (nat, Scenario<L, M>) -> bool, u: Run<Scenario<L, M>>)
    requires Always(o) && Plain(u.now)
    ensures u.now.cycles[0] in u.now.cycles && ShrinkFrom(o, u).now == TheFirst(u.now)
  {
    var v := PassFrom(o, u);
    PassLeavesTheFirst(o, u);
    TheFirstIsPlain(u.now);
    PassLeavesTheFirst(o, v);
  }

  // -- The first attempt ----------------------------------------------------

  /** The n-th attempt fails and no other. */
  ghost predicate Once<S(!new)>(o: (nat, S) -> bool, n: nat) {
    forall k, s :: o(k, s) <==> k == n
  }

  /** No attempt from the n-th on fails. */
  ghost predicate Never<S(!new)>(o: (nat, S) -> bool, n: nat) {
    forall k, s :: k >= n ==> !o(k, s)
  }

  lemma {:induction false} CyclesKept<L(!new), M(!new)>(o: (nat, Scenario<L, M>) -> bool, u: Run<Scenario<L, M>>, i: nat)
    requires Never(o, u.used) && i <= |u.now.cycles|
    ensures CyclesDown(o, u, i).now == u.now && CyclesDown(o, u, i).used >= u.used
    decreases i
  {
    if i > 0 && |u.now.cycles| > 1 {
      CyclesKept(o, Tried(o, u, DropCycle(u.now, i - 1)), i - 1);
    }
  }

  lemma {:induction false} MutationsKept<L(!new), M(!new)>(
      o: (nat, Scenario<L, M>) -> bool, u: Run<Scenario<L, M>>, ci: nat, mi: nat)
    requires Never(o, u.used) && ci < |u.now.cycles| && mi <= |u.now.cycles[ci].mutations|
    ensures MutationsDown(o, u, ci, mi).now == u.now && MutationsDown(o, u, ci, mi).used >= u.used
    decreases mi
  {
    if mi > 0 && |u.now.cycles[ci].mutations| > 1 {
      MutationsKept(o, Tried(o, u, DropMutation(u.now, ci, mi - 1)), ci, mi - 1);
    }
  }

  lemma {:induction false} AllMutationsKept<L(!new), M(!new)>(
      o: (nat, Scenario<L, M>) -> bool, u: Run<Scenario<L, M>>, ci: nat)
    requires Never(o, u.used) && ci <= |u.now.cycles|
    ensures MutationsFrom(o, u, ci).now == u.now && MutationsFrom(o, u, ci).used >= u.used
    decreases |u.now.cycles| - ci
  {
    if ci < |u.now.cycles| {
      var n := |u.now.cycles[ci].mutations|;
      MutationsKept(o, u, ci, n);
      AllMutationsKept(o, MutationsDown(o, u, ci, n), ci + 1);
    }
  }

  lemma {:induction false} RowsKept<L(!new), M(!new)>(
      o: (nat, Scenario<L, M>) -> bool, u: Run<Scenario<L, M>>, si: nat, ti: nat)
    requires Never(o, u.used) && si < |u.now.initialData|
    ensures TuplesDown(o, u, si, ti).now == u.now && TuplesDown(o, u, si, ti).used >= u.used
    decreases ti
  {
    if ti > 0 {
      NextTupleDown(o, u, si, ti - 1);
      if CanDropTuple(u.now, si, ti - 1) {
        RowsKept(o, Tried(o, u, DropTuple(u.now, si, ti - 1)), si, ti - 1);
      } else {
        RowsKept(o, u, si, ti - 1);
      }
    }
  }

  lemma {:induction false} AllRowsKept<L(!new), M(!new)>(
      o: (nat, Scenario<L, M>) -> bool, u: Run<Scenario<L, M>>, si: nat)
    requires Never(o, u.used) && si <= |u.now.initialData|
    ensures TuplesFrom(o, u, si).now == u.now
    decreases |u.now.initialData| - si
  {
    if si < |u.now.initialData| {
      var n := TupleCount(u.now.initialData[si]);
      RowsKept(o, u, si, n);
      AllRowsKept(o, TuplesDown(o, u, si, n), si + 1);
    }
  }

  /** The last cycle is the first to go. */
  lemma LastCycleGoesFirst<L(!new), M(!new)>(o: (nat, Scenario<L, M>) -> bool, u: Run<Scenario<L, M>>)
    requires Once(o, u.used) && |u.now.cycles| > 1
    ensures PassFrom(o, u).now == u.now.(cycles := u.now.cycles[..|u.now.cycles| - 1])
  {
    var n := |u.now.cycles|;
    var v := Tried(o, u, DropCycle(u.now, n - 1));
    CyclesKept(o, v, n - 1);
    var a := CyclesDown(o, u, n);
    AllMutationsKept(o, a, 0);
    AllRowsKept(o, MutationsFrom(o, a, 0), 0);
  }

  /** Cycles with one mutation are passed over. */
  lemma {:induction false} ShortCyclesPassed<L(!new), M(!new)>(
      o: (nat, Scenario<L, M>) -> bool, u: Run<Scenario<L, M>>, ci: nat)
    requires ci <= |u.now.cycles| && forall i :: 0 <= i < ci ==> |u.now.cycles[i].mutations| <= 1
    ensures MutationsFrom(o, u, 0) == MutationsFrom(o, u, ci)
  {
    if ci > 0 {
      ShortCyclesPassed(o, u, ci - 1);
    }
  }

  /** Of the first cycle with several mutations the last one goes first. */
  lemma LastMutationGoesFirst<L(!new), M(!new)>(o: (nat, Scenario<L, M>) -> bool, u: Run<Scenario<L, M>>, ci: nat)
    requires Once(o, u.used) && ci < |u.now.cycles| && |u.now.cycles[ci].mutations| > 1
    requires forall i :: 0 <= i < ci ==> |u.now.cycles[i].mutations| <= 1
    ensures var c := u.now.cycles[ci];
      MutationsFrom(o, u, 0).now ==
      u.now.(cycles := u.now.cycles[ci := c.(mutations := c.mutations[..|c.mutations| - 1])])
  {
    var n := |u.now.cycles[ci].mutations|;
    var v := Tried(o, u, DropMutation(u.now, ci, n - 1));
    assert v.now.cycles[ci].mutations == u.now.cycles[ci].mutations[..n - 1];
    ShortCyclesPassed(o, u, ci);
    MutationsKept(o, v, ci, n - 1);
    AllMutationsKept(o, MutationsDown(o, v, ci, n - 1), ci + 1);
  }

  lemma {:induction false} ShortStatementsPassed<L(!new), M(!new)>(
      o: (nat, Scenario<L, M>) -> bool, u: Run<Scenario<L, M>>, si: nat)
    requires si <= |u.now.initialData| && forall i :: 0 <= i < si ==> TupleCount(u.now.initialData[i]) <= 1
    ensures TuplesFrom(o, u, 0) == TuplesFrom(o, u, si)
  {
    if si > 0 {
      ShortStatementsPassed(o, u, si - 1);
      LastRowStays(o, u, si - 1);
    }
  }

  /** Of the first statement with several rows the last one goes first. */
  lemma LastRowGoesFirst<L(!new), M(!new)>(o: (nat, Scenario<L, M>) -> bool, u: Run<Scenario<L, M>>, si: nat)
    requires Once(o, u.used) && si < |u.now.initialData| && TupleCount(u.now.initialData[si]) > 1
    requires forall i :: 0 <= i < si ==> TupleCount(u.now.initialData[i]) <= 1
    ensures var p := ParseValues(u.now.initialData[si]).value;
      TuplesFrom(o, u, 0).now ==
      u.now.(initialData := u.now.initialData[si := Rebuild(p.(tuples := p.tuples[..|p.tuples| - 1]))])
  {
    var p := ParseValues(u.now.initialData[si]).value;
    var n := |p.tuples|;
    var v := Tried(o, u, DropTuple(u.now, si, n - 1));
    ShortStatementsPassed(o, u, si);
    NextTupleDown(o, u, si, n - 1);
    assert Without(p.tuples, n - 1) == p.tuples[..n - 1];
    RowsKept(o, v, si, n - 1);
    AllRowsKept(o, TuplesDown(o, v, si, n - 1), si + 1);
  }

  // -- Operands and kinds of a recovery history -----------------------------

  /** When every candidate fails, both operands become zero; the value of a delete stays. */
  lemma OperandsBecomeZero(o: HistoryOracle, u: Run<History>, i: nat)
    requires Always(o) && Single(u.now) && i < |u.now.cycles|
    ensures var m := u.now.cycles[i].mutations[0];
      ZeroAt(o, u, i).now.cycles[i].mutations == [Mutation(m.kind, 0, if m.kind == DeleteRow then m.value else 0)]
  {
    var m := u.now.cycles[i].mutations[0];
    assert u.now.cycles[i].mutations == [m];
  }

  /** Nothing can be zeroed in the first i cycles. */
  predicate Zeroed(s: History, i: nat) {
    && Single(s) && i <= |s.cycles|
    && forall j :: 0 <= j < i ==>
         var m := s.cycles[j].mutations[0]; m.id == 0 && (m.kind == DeleteRow || m.value == 0)
  }

  lemma {:induction false} ZeroedPassed(o: HistoryOracle, u: Run<History>, i: nat)
    requires Zeroed(u.now, i)
    ensures ZerosFrom(o, u, 0) == ZerosFrom(o, u, i)
  {
    if i > 0 {
      ZeroedPassed(o, u, i - 1);
    }
  }

  lemma {:induction false} OperandsKept(o: HistoryOracle, u: Run<History>, i: nat)
    requires Never(o, u.used) && Single(u.now) && i <= |u.now.cycles|
    ensures ZerosFrom(o, u, i).now == u.now
    decreases |u.now.cycles| - i
  {
    if i < |u.now.cycles| {
      OperandsKept(o, ZeroAt(o, u, i), i + 1);
    }
  }

  /** In the first cycle with an id the id is zeroed first, before any value. */
  lemma IdGoesFirst(o: HistoryOracle, u: Run<History>, i: nat)
    requires Once(o, u.used) && Zeroed(u.now, i) && i < |u.now.cycles| && u.now.cycles[i].mutations[0].id != 0
    ensures ZerosFrom(o, u, 0).now == SetMutation(u.now, i, u.now.cycles[i].mutations[0].(id := 0))
  {
    ZeroedPassed(o, u, i);
    var m := u.now.cycles[i].mutations[0];
    assert Replaced(o, u, i, m.(id := 0)).now == SetMutation(u.now, i, m.(id := 0));
    assert ZeroAt(o, u, i).now == SetMutation(u.now, i, m.(id := 0));
    OperandsKept(o, ZeroAt(o, u, i), i + 1);
  }

  predicate Deletes(s: History, i: nat) {
    Single(s) && i <= |s.cycles| && forall j :: 0 <= j < i ==> s.cycles[j].mutations[0].kind == DeleteRow
  }

  lemma {:induction false} DeletesPassed(o: HistoryOracle, u: Run<History>, i: nat)
    requires Deletes(u.now, i)
    ensures KindsFrom(o, u, 0) == KindsFrom(o, u, i)
  {
    if i > 0 {
      DeletesPassed(o, u, i - 1);
    }
  }

  lemma {:induction false} KindsKept(o: HistoryOracle, u: Run<History>, i: nat)
    requires Never(o, u.used) && Single(u.now) && i <= |u.now.cycles|
    ensures KindsFrom(o, u, i).now == u.now
    decreases |u.now.cycles| - i
  {
    if i < |u.now.cycles| {
      KindsKept(o, KindAt(o, u, i), i + 1);
    }
  }

  /** The first cycle that is no delete is first tried as one. */
  lemma DeleteGoesFirst(o: HistoryOracle, u: Run<History>, i: nat)
    requires Once(o, u.used) && Deletes(u.now, i) && i < |u.now.cycles| && u.now.cycles[i].mutations[0].kind != DeleteRow
    ensures KindsFrom(o, u, 0).now == SetMutation(u.now, i, u.now.cycles[i].mutations[0].(kind := DeleteRow))
  {
    DeletesPassed(o, u, i);
    var m := u.now.cycles[i].mutations[0];
    assert KindAt(o, u, i).now == SetMutation(u.now, i, m.(kind := DeleteRow));
    KindsKept(o, KindAt(o, u, i), i + 1);
  }

  /**
   When every candidate fails, an insert ends its turn as an update, although the
   delete was kept before: the test looks at the kind the turn began with.
   */
  lemma KindAfterTurn(o: HistoryOracle, u: Run<History>, i: nat)
    requires Always(o) && Single(u.now) && i < |u.now.cycles|
    ensures var m, v := u.now.cycles[i].mutations[0], KindAt(o, u, i);
      && v.now.cycles[i].mutations == [m.(kind := if m.kind == InsertRow then UpdateRow else DeleteRow)]
      && v.used == u.used + (if m.kind == InsertRow then 2 else if m.kind == UpdateRow then 1 else 0)
  {
    var m := u.now.cycles[i].mutations[0];
    assert u.now.cycles[i].mutations == [m];
  }
}
