/**
 Delta debugging of a DVM scenario in the mode that keeps SQL boundaries: whole
 cycles, single mutations and single row tuples are dropped while the failure
 stays, until a full pass drops nothing.
 */
module DvmShrink {
  import opened Text
  import opened InsertValues
  import opened Replay

  datatype Cycle<L, M> = Cycle(tag: L, mutations: seq<M>)
  datatype Scenario<L, M> = Scenario(cycles: seq<Cycle<L, M>>, initialData: seq<string>)

  // -- The three reductions -------------------------------------------------

  function DropCycle<L, M>(s: Scenario<L, M>, i: nat): Scenario<L, M>
    requires i < |s.cycles|
  {
    s.(cycles := Without(s.cycles, i))
  }

  function DropMutation<L, M>(s: Scenario<L, M>, ci: nat, mi: nat): Scenario<L, M>
    requires ci < |s.cycles| && mi < |s.cycles[ci].mutations|
  {
    var c := s.cycles[ci];
    s.(cycles := s.cycles[ci := c.(mutations := Without(c.mutations, mi))])
  }

  predicate HasTuple<L, M>(s: Scenario<L, M>, si: nat, ti: nat) {
    && si < |s.initialData|
    && ParseValues(s.initialData[si]).Some?
    && ti < |ParseValues(s.initialData[si]).value.tuples|
  }

  function DropTuple<L, M>(s: Scenario<L, M>, si: nat, ti: nat): Scenario<L, M>
    requires HasTuple(s, si, ti)
  {
    var p := ParseValues(s.initialData[si]).value;
    s.(initialData := s.initialData[si := Rebuild(p.(tuples := Without(p.tuples, ti)))])
  }

  // Which reductions are allowed: the last cycle, mutation or tuple stays.

  predicate CanDropCycle<L, M>(s: Scenario<L, M>, i: nat) {
    i < |s.cycles| && |s.cycles| > 1
  }

  predicate CanDropMutation<L, M>(s: Scenario<L, M>, ci: nat, mi: nat) {
    ci < |s.cycles| && mi < |s.cycles[ci].mutations| && |s.cycles[ci].mutations| > 1
  }

  predicate CanDropTuple<L, M>(s: Scenario<L, M>, si: nat, ti: nat) {
    HasTuple(s, si, ti) && |ParseValues(s.initialData[si]).value.tuples| > 1
  }

  function TupleCount(sql: string): nat {
    if ParseValues(sql).None? then 0 else |ParseValues(sql).value.tuples|
  }

  /** c is s with one cycle, one mutation or one row tuple dropped. */
  ghost predicate OneSmaller<L, M>(s: Scenario<L, M>, c: Scenario<L, M>) {
    || (exists i: nat :: CanDropCycle(s, i) && c == DropCycle(s, i))
    || (exists ci: nat, mi: nat :: CanDropMutation(s, ci, mi) && c == DropMutation(s, ci, mi))
    || (exists si: nat, ti: nat :: CanDropTuple(s, si, ti) && c == DropTuple(s, si, ti))
  }

  // -- What a reduction is --------------------------------------------------

  predicate Parts<T(==)>(s: seq<T>, a: seq<T>, x: T, b: seq<T>) {
    s == a + [x] + b
  }

  /** t is s without one element, wherever it stood, and is not empty. */
  ghost predicate OneOut<T(!new)>(s: seq<T>, t: seq<T>) {
    t != [] && exists a, x, b :: Parts(s, a, x, b) && t == a + b
  }

  /** The lists agree everywhere but at i. */
  predicate SameBut<T(==)>(s: seq<T>, t: seq<T>, i: nat) {
    |s| == |t| && i < |s| && forall j :: 0 <= j < |s| && j != i ==> t[j] == s[j]
  }

  ghost predicate MutationOut<L(!new), M(!new)>(s: seq<Cycle<L, M>>, t: seq<Cycle<L, M>>) {
    exists i: nat :: SameBut(s, t, i) && t[i].tag == s[i].tag && OneOut(s[i].mutations, t[i].mutations)
  }

  ghost predicate TupleOut(s: seq<string>, t: seq<string>) {
    exists i: nat :: SameBut(s, t, i) && RowOut(s[i], t[i])
  }

  /** One row less, the others written behind VALUES with a comma and a space between them. */
  ghost predicate RowOut(sql: string, now: string) {
    && ParseValues(sql).Some?
    && var p := ParseValues(sql).value;
       exists rows :: OneOut(p.tuples, rows) && now == p.prefix + " " + Join(", ", rows) + p.suffix
  }

  lemma WithoutIsOneOut<T(!new)>(s: seq<T>, i: nat)
    requires i < |s| && |s| > 1
    ensures OneOut(s, Without(s, i))
  {
    assert Parts(s, s[..i], s[i], s[i + 1..]);
  }

  lemma OneOutIsWithout<T(!new)>(s: seq<T>, t: seq<T>) returns (i: nat)
    requires OneOut(s, t)
    ensures i < |s| && |s| > 1 && t == Without(s, i)
  {
    var a, x, b :| Parts(s, a, x, b) && t == a + b;
    i := |a|;
    assert s[..i] == a && s[i + 1..] == b;
  }

  lemma MutationOutIff<L(!new), M(!new)>(s: Scenario<L, M>, c: Scenario<L, M>)
    requires c.initialData == s.initialData
    ensures MutationOut(s.cycles, c.cycles) <==>
      exists ci: nat, mi: nat :: CanDropMutation(s, ci, mi) && c == DropMutation(s, ci, mi)
  {
    if ci: nat, mi: nat :| CanDropMutation(s, ci, mi) && c == DropMutation(s, ci, mi) {
      WithoutIsOneOut(s.cycles[ci].mutations, mi);
      assert SameBut(s.cycles, c.cycles, ci);
    }
    if MutationOut(s.cycles, c.cycles) {
      var ci: nat :| SameBut(s.cycles, c.cycles, ci) && c.cycles[ci].tag == s.cycles[ci].tag
        && OneOut(s.cycles[ci].mutations, c.cycles[ci].mutations);
      var mi := OneOutIsWithout(s.cycles[ci].mutations, c.cycles[ci].mutations);
      assert c.cycles == s.cycles[ci := s.cycles[ci].(mutations := Without(s.cycles[ci].mutations, mi))];
      assert CanDropMutation(s, ci, mi) && c == DropMutation(s, ci, mi);
    }
  }

  lemma DroppedRowIsOut(sql: string, ti: nat)
    requires ParseValues(sql).Some? && ti < |ParseValues(sql).value.tuples| && |ParseValues(sql).value.tuples| > 1
    ensures var p := ParseValues(sql).value; RowOut(sql, Rebuild(p.(tuples := Without(p.tuples, ti))))
  {
    WithoutIsOneOut(ParseValues(sql).value.tuples, ti);
  }

  lemma OutIsDroppedRow(sql: string, now: string) returns (ti: nat)
    requires RowOut(sql, now)
    ensures var p := ParseValues(sql).value;
      ti < |p.tuples| && |p.tuples| > 1 && now == Rebuild(p.(tuples := Without(p.tuples, ti)))
  {
    var p := ParseValues(sql).value;
    var rows :| OneOut(p.tuples, rows) && now == p.prefix + " " + Join(", ", rows) + p.suffix;
    ti := OneOutIsWithout(p.tuples, rows);
  }

  lemma TupleOutIff<L(!new), M(!new)>(s: Scenario<L, M>, c: Scenario<L, M>)
    requires c.cycles == s.cycles
    ensures TupleOut(s.initialData, c.initialData) <==>
      exists si: nat, ti: nat :: CanDropTuple(s, si, ti) && c == DropTuple(s, si, ti)
  {
    if si: nat, ti: nat :| CanDropTuple(s, si, ti) && c == DropTuple(s, si, ti) {
      DroppedRowIsOut(s.initialData[si], ti);
      assert SameBut(s.initialData, c.initialData, si);
    }
    if TupleOut(s.initialData, c.initialData) {
      var si: nat :| SameBut(s.initialData, c.initialData, si) && RowOut(s.initialData[si], c.initialData[si]);
      var ti := OutIsDroppedRow(s.initialData[si], c.initialData[si]);
      assert c.initialData == s.initialData[si := c.initialData[si]];
      assert CanDropTuple(s, si, ti) && c == DropTuple(s, si, ti);
    }
  }

  /** One reduction takes out one cycle, one mutation of one cycle, or one row of one statement: any of them, and nothing else. */
  lemma OneSmallerIff<L(!new), M(!new)>(s: Scenario<L, M>, c: Scenario<L, M>)
    ensures OneSmaller(s, c) <==>
      || (c.initialData == s.initialData && OneOut(s.cycles, c.cycles))
      || (c.initialData == s.initialData && MutationOut(s.cycles, c.cycles))
      || (c.cycles == s.cycles && TupleOut(s.initialData, c.initialData))
  {
    if c.initialData == s.initialData {
      MutationOutIff(s, c);
      if OneOut(s.cycles, c.cycles) {
        var i := OneOutIsWithout(s.cycles, c.cycles);
        assert CanDropCycle(s, i) && c == DropCycle(s, i);
      }
    }
    if c.cycles == s.cycles {
      TupleOutIff(s, c);
    }
    if i: nat :| CanDropCycle(s, i) && c == DropCycle(s, i) {
      WithoutIsOneOut(s.cycles, i);
    }
  }

  // -- Size -----------------------------------------------------------------

  ghost function Mutations<L, M>(cycles: seq<Cycle<L, M>>): nat {
    if cycles == [] then 0 else |cycles[0].mutations| + Mutations(cycles[1..])
  }

  /** Cycles, mutations, and opening parentheses of the initial data. */
  ghost function Size<L, M>(s: Scenario<L, M>): nat {
    |s.cycles| + Mutations(s.cycles) + SumOpens(s.initialData)
  }

  lemma {:induction false} MutationsWithout<L, M>(cycles: seq<Cycle<L, M>>, i: nat)
    requires i < |cycles|
    ensures Mutations(Without(cycles, i)) + |cycles[i].mutations| == Mutations(cycles)
  {
    if i == 0 {
      assert Without(cycles, 0) == cycles[1..];
    } else {
      MutationsWithout(cycles[1..], i - 1);
      assert Without(cycles, i)[1..] == Without(cycles[1..], i - 1);
    }
  }

  lemma {:induction false} MutationsUpdate<L, M>(cycles: seq<Cycle<L, M>>, i: nat, c: Cycle<L, M>)
    requires i < |cycles|
    ensures Mutations(cycles[i := c]) == Mutations(cycles) - |cycles[i].mutations| + |c.mutations|
  {
    if i == 0 {
      assert cycles[0 := c][1..] == cycles[1..];
    } else {
      MutationsUpdate(cycles[1..], i - 1, c);
      assert cycles[i := c][1..] == cycles[1..][i - 1 := c];
    }
  }

  lemma {:induction false} OpensUpdate(data: seq<string>, i: nat, sql: string)
    requires i < |data|
    ensures SumOpens(data[i := sql]) == SumOpens(data) - Opens(data[i]) + Opens(sql)
  {
    if i == 0 {
      assert data[0 := sql][1..] == data[1..];
    } else {
      OpensUpdate(data[1..], i - 1, sql);
      assert data[i := sql][1..] == data[1..][i - 1 := sql];
    }
  }

  lemma OneSmallerIsSmaller<L, M>(s: Scenario<L, M>, c: Scenario<L, M>)
    requires OneSmaller(s, c)
    ensures Size(c) < Size(s)
  {
    if i: nat :| CanDropCycle(s, i) && c == DropCycle(s, i) {
      MutationsWithout(s.cycles, i);
    } else if ci: nat, mi: nat :| CanDropMutation(s, ci, mi) && c == DropMutation(s, ci, mi) {
      MutationsUpdate(s.cycles, ci, c.cycles[ci]);
    } else {
      var si: nat, ti: nat :| CanDropTuple(s, si, ti) && c == DropTuple(s, si, ti);
      DroppingShrinks(s.initialData[si], ti);
      OpensUpdate(s.initialData, si, c.initialData[si]);
    }
  }

  // -- Which attempts are made, and in which order --------------------------

  /** Cycles i - 1, i - 2, ... are tried in turn, while more than one is left. */
  ghost function CyclesDown<L, M>(o: (nat, Scenario<L, M>) -> bool, u: Run<Scenario<L, M>>, i: nat): Run<Scenario<L, M>>
    requires i <= |u.now.cycles|
    decreases i
  {
    if i == 0 || |u.now.cycles| <= 1 then u
    else CyclesDown(o, Tried(o, u, DropCycle(u.now, i - 1)), i - 1)
  }

  /** The same for the mutations of one cycle. */
  ghost function MutationsDown<L, M>(o: (nat, Scenario<L, M>) -> bool, u: Run<Scenario<L, M>>, ci: nat, mi: nat)
    : (v: Run<Scenario<L, M>>)
    requires ci < |u.now.cycles| && mi <= |u.now.cycles[ci].mutations|
    ensures |v.now.cycles| == |u.now.cycles|
    decreases mi
  {
    if mi == 0 || |u.now.cycles[ci].mutations| <= 1 then u
    else MutationsDown(o, Tried(o, u, DropMutation(u.now, ci, mi - 1)), ci, mi - 1)
  }

  /** Cycle after cycle. */
  ghost function MutationsFrom<L, M>(o: (nat, Scenario<L, M>) -> bool, u: Run<Scenario<L, M>>, ci: nat): Run<Scenario<L, M>>
    requires ci <= |u.now.cycles|
    decreases |u.now.cycles| - ci
  {
    if ci == |u.now.cycles| then u
    else MutationsFrom(o, MutationsDown(o, u, ci, |u.now.cycles[ci].mutations|), ci + 1)
  }

  /** The same for the rows of one statement; a row that is gone or alone is passed over. */
  ghost function TuplesDown<L, M>(o: (nat, Scenario<L, M>) -> bool, u: Run<Scenario<L, M>>, si: nat, ti: nat)
    : (v: Run<Scenario<L, M>>)
    requires si < |u.now.initialData|
    ensures |v.now.initialData| == |u.now.initialData|
    decreases ti
  {
    if ti == 0 || ParseValues(u.now.initialData[si]).None? then u
    else if CanDropTuple(u.now, si, ti - 1) then TuplesDown(o, Tried(o, u, DropTuple(u.now, si, ti - 1)), si, ti - 1)
    else TuplesDown(o, u, si, ti - 1)
  }

  ghost function TuplesFrom<L, M>(o: (nat, Scenario<L, M>) -> bool, u: Run<Scenario<L, M>>, si: nat): Run<Scenario<L, M>>
    requires si <= |u.now.initialData|
    decreases |u.now.initialData| - si
  {
    if si == |u.now.initialData| then u
    else TuplesFrom(o, TuplesDown(o, u, si, TupleCount(u.now.initialData[si])), si + 1)
  }

  /** One pass: cycles, mutations, rows. */
  ghost function PassFrom<L, M>(o: (nat, Scenario<L, M>) -> bool, u: Run<Scenario<L, M>>): Run<Scenario<L, M>> {
    TuplesFrom(o, MutationsFrom(o, CyclesDown(o, u, |u.now.cycles|), 0), 0)
  }

  /** Unchanged or smaller. */
  ghost predicate Shrunk<L, M>(u: Run<Scenario<L, M>>, v: Run<Scenario<L, M>>) {
    v.now == u.now || Size(v.now) < Size(u.now)
  }

  lemma TriedShrinks<L, M>(o: (nat, Scenario<L, M>) -> bool, u: Run<Scenario<L, M>>, c: Scenario<L, M>)
    requires OneSmaller(u.now, c)
    ensures Shrunk(u, Tried(o, u, c))
  {
    OneSmallerIsSmaller(u.now, c);
  }

  lemma {:induction false} CyclesShrink<L, M>(o: (nat, Scenario<L, M>) -> bool, u: Run<Scenario<L, M>>, i: nat)
    requires i <= |u.now.cycles|
    ensures Shrunk(u, CyclesDown(o, u, i))
    decreases i
  {
    if i > 0 && |u.now.cycles| > 1 {
      assert CanDropCycle(u.now, i - 1);
      TriedShrinks(o, u, DropCycle(u.now, i - 1));
      CyclesShrink(o, Tried(o, u, DropCycle(u.now, i - 1)), i - 1);
    }
  }

  lemma {:induction false} MutationsShrink<L, M>(o: (nat, Scenario<L, M>) -> bool, u: Run<Scenario<L, M>>, ci: nat, mi: nat)
    requires ci < |u.now.cycles| && mi <= |u.now.cycles[ci].mutations|
    ensures Shrunk(u, MutationsDown(o, u, ci, mi))
    decreases mi
  {
    if mi > 0 && |u.now.cycles[ci].mutations| > 1 {
      assert CanDropMutation(u.now, ci, mi - 1);
      TriedShrinks(o, u, DropMutation(u.now, ci, mi - 1));
      MutationsShrink(o, Tried(o, u, DropMutation(u.now, ci, mi - 1)), ci, mi - 1);
    }
  }

  lemma {:induction false} MutationsFromShrink<L, M>(o: (nat, Scenario<L, M>) -> bool, u: Run<Scenario<L, M>>, ci: nat)
    requires ci <= |u.now.cycles|
    ensures Shrunk(u, MutationsFrom(o, u, ci))
    decreases |u.now.cycles| - ci
  {
    if ci < |u.now.cycles| {
      var n := |u.now.cycles[ci].mutations|;
      MutationsShrink(o, u, ci, n);
      MutationsFromShrink(o, MutationsDown(o, u, ci, n), ci + 1);
    }
  }

  lemma {:induction false} TuplesShrink<L, M>(o: (nat, Scenario<L, M>) -> bool, u: Run<Scenario<L, M>>, si: nat, ti: nat)
    requires si < |u.now.initialData|
    ensures Shrunk(u, TuplesDown(o, u, si, ti))
    decreases ti
  {
    if ti > 0 && ParseValues(u.now.initialData[si]).Some? {
      if CanDropTuple(u.now, si, ti - 1) {
        TriedShrinks(o, u, DropTuple(u.now, si, ti - 1));
        TuplesShrink(o, Tried(o, u, DropTuple(u.now, si, ti - 1)), si, ti - 1);
      } else {
        TuplesShrink(o, u, si, ti - 1);
      }
    }
  }

  lemma {:induction false} TuplesFromShrink<L, M>(o: (nat, Scenario<L, M>) -> bool, u: Run<Scenario<L, M>>, si: nat)
    requires si <= |u.now.initialData|
    ensures Shrunk(u, TuplesFrom(o, u, si))
    decreases |u.now.initialData| - si
  {
    if si < |u.now.initialData| {
      var n := TupleCount(u.now.initialData[si]);
      TuplesShrink(o, u, si, n);
      TuplesFromShrink(o, TuplesDown(o, u, si, n), si + 1);
    }
  }

  lemma PassShrinks<L, M>(o: (nat, Scenario<L, M>) -> bool, u: Run<Scenario<L, M>>)
    ensures Shrunk(u, PassFrom(o, u))
  {
    var a := CyclesDown(o, u, |u.now.cycles|);
    CyclesShrink(o, u, |u.now.cycles|);
    MutationsFromShrink(o, a, 0);
    TuplesFromShrink(o, MutationsFrom(o, a, 0), 0);
  }

  /** Passes until one changes nothing. */
  ghost function ShrinkFrom<L, M>(o: (nat, Scenario<L, M>) -> bool, u: Run<Scenario<L, M>>): Run<Scenario<L, M>>
    decreases Size(u.now)
  {
    PassShrinks(o, u);
    var v := PassFrom(o, u);
    if v.now == u.now then v else ShrinkFrom(o, v)
  }

  // -- Chains of accepted reductions ----------------------------------------

  /** The scenarios kept one after the other, each one reduction below the one before. */
  ghost predicate Chain<L, M>(path: seq<Scenario<L, M>>, s: Scenario<L, M>, t: Scenario<L, M>) {
    && path != [] && path[0] == s && path[|path| - 1] == t
    && forall i :: 0 <= i < |path| - 1 ==> OneSmaller(path[i], path[i + 1])
  }

  ghost predicate AllReproduced<L(!new), M(!new), P(!new)>(r: Replayer<Scenario<L, M>, P>, path: seq<Scenario<L, M>>)
    reads r
  {
    forall i :: 1 <= i < |path| ==> r.Reproduced(path[i])
  }

  lemma {:induction false} ChainShrinks<L, M>(path: seq<Scenario<L, M>>, s: Scenario<L, M>, t: Scenario<L, M>)
    requires Chain(path, s, t)
    ensures Size(t) + |path| - 1 <= Size(s)
  {
    if |path| > 1 {
      var shorter := path[..|path| - 1];
      ChainShrinks(shorter, s, shorter[|shorter| - 1]);
      OneSmallerIsSmaller(path[|path| - 2], t);
    }
  }

  /** A history and its cycles never become empty. */
  ghost predicate NoneEmpty<L, M>(s: Scenario<L, M>) {
    s.cycles != [] && forall c :: c in s.cycles ==> c.mutations != []
  }

  lemma {:induction false} ChainKeepsNoneEmpty<L, M>(path: seq<Scenario<L, M>>, s: Scenario<L, M>, t: Scenario<L, M>)
    requires Chain(path, s, t) && NoneEmpty(s)
    ensures NoneEmpty(t)
  {
    if |path| > 1 {
      var shorter := path[..|path| - 1];
      ChainKeepsNoneEmpty(shorter, s, shorter[|shorter| - 1]);
      assert OneSmaller(path[|path| - 2], t);
    }
  }

  // -- The passes -----------------------------------------------------------

  /** Replays one candidate below t and keeps it when the failure stays. */
  method Try<L(!new), M(!new), P(!new)>(r: Replayer<Scenario<L, M>, P>, ghost s: Scenario<L, M>, t: Scenario<L, M>,
                                  candidate: Scenario<L, M>, ghost path: seq<Scenario<L, M>>)
    returns (ok: bool, t': Scenario<L, M>, ghost path': seq<Scenario<L, M>>)
    requires r.Valid() && OneSmaller(t, candidate)
    requires Chain(path, s, t) && AllReproduced(r, path)
    modifies r
    ensures r.Valid() && r.Grew()
    ensures Chain(path', s, t') && AllReproduced(r, path')
    ensures if ok then t' == candidate && |path'| > 1 else t' == t && path' == path && r.Refused(candidate)
    ensures Run(t', |r.attempts|) == Tried(Oracle(r), Run(t, |old(r.attempts)|), candidate)
  {
    ok := r.Replay(candidate);
    if ok {
      t', path' := candidate, path + [candidate];
    } else {
      t', path' := t, path;
    }
  }

  /** t was reached from s by kept reductions. */
  ghost predicate Kept<L(!new), M(!new), P(!new)>(
      r: Replayer<Scenario<L, M>, P>, s: Scenario<L, M>, t: Scenario<L, M>, path: seq<Scenario<L, M>>, changed: bool)
    reads r
  {
    r.Valid() && Chain(path, s, t) && AllReproduced(r, path) && (changed ==> |path| > 1)
  }

  // (a) Remove whole cycles, last first.

  /** The cycles from i on were tried: one was dropped, or all were refused. */
  ghost predicate CyclesTried<L(!new), M(!new), P(!new)>(
      r: Replayer<Scenario<L, M>, P>, s: Scenario<L, M>, t: Scenario<L, M>, path: seq<Scenario<L, M>>, changed: bool, i: nat)
    reads r
  {
    && Kept(r, s, t, path, changed)
    && (!changed ==> t == s && path == [s] && forall j: nat :: i <= j && CanDropCycle(s, j) ==> r.Refused(DropCycle(s, j)))
  }

  method CycleTurn<L(!new), M(!new), P(!new)>(
      r: Replayer<Scenario<L, M>, P>, ghost s: Scenario<L, M>, t: Scenario<L, M>, ghost path: seq<Scenario<L, M>>,
      changed: bool, i: nat)
    returns (t': Scenario<L, M>, ghost path': seq<Scenario<L, M>>, changed': bool)
    requires CyclesTried(r, s, t, path, changed, i + 1) && CanDropCycle(t, i)
    modifies r
    ensures r.Grew() && CyclesTried(r, s, t', path', changed', i) && i <= |t'.cycles|
    ensures Run(t', |r.attempts|) == Tried(Oracle(r), Run(t, |old(r.attempts)|), DropCycle(t, i))
  {
    var ok;
    ok, t', path' := Try(r, s, t, DropCycle(t, i), path);
    changed' := changed || ok;
  }

  method RemoveCycles<L(!new), M(!new), P(!new)>(s: Scenario<L, M>, r: Replayer<Scenario<L, M>, P>)
    returns (t: Scenario<L, M>, changed: bool, ghost path: seq<Scenario<L, M>>)
    requires r.Valid()
    modifies r
    ensures r.Grew() && CyclesTried(r, s, t, path, changed, 0)
    ensures Run(t, |r.attempts|) == CyclesDown(Oracle(r), Run(s, |old(r.attempts)|), |s.cycles|)
  {
    t, changed, path := s, false, [s];
    var i: nat := |t.cycles|;
    ghost var goal := CyclesDown(Oracle(r), Run(s, |r.attempts|), i);
    NoneTried(r, s);
    while i > 0 && |t.cycles| > 1
      invariant r.Longer() && CyclesTried(r, s, t, path, changed, i)
      invariant i <= |t.cycles| && goal == CyclesDown(Oracle(r), Run(t, |r.attempts|), i)
    {
      i := i - 1;
      CyclesNext(Oracle(r), Run(t, |r.attempts|), i);
      t, path, changed := CycleTurn(r, s, t, path, changed, i);
    }
    AllTried(r, s, t, path, changed, i);
    r.LongerGrew();
  }

  lemma CyclesNext<L, M>(o: (nat, Scenario<L, M>) -> bool, u: Run<Scenario<L, M>>, i: nat)
    requires i < |u.now.cycles| && |u.now.cycles| > 1
    ensures CyclesDown(o, u, i + 1) == CyclesDown(o, Tried(o, u, DropCycle(u.now, i)), i)
  {}

  lemma NoneTried<L(!new), M(!new), P(!new)>(r: Replayer<Scenario<L, M>, P>, s: Scenario<L, M>)
    requires r.Valid()
    ensures CyclesTried(r, s, s, [s], false, |s.cycles|)
  {}

  lemma AllTried<L(!new), M(!new), P(!new)>(
      r: Replayer<Scenario<L, M>, P>, s: Scenario<L, M>, t: Scenario<L, M>, path: seq<Scenario<L, M>>, changed: bool, i: nat)
    requires CyclesTried(r, s, t, path, changed, i) && (i == 0 || |t.cycles| <= 1)
    ensures CyclesTried(r, s, t, path, changed, 0)
  {}

  // (b) Remove mutations inside each remaining cycle, last first.

  /** The mutations of the cycle from mi on were tried. */
  ghost predicate MutationsTried<L(!new), M(!new), P(!new)>(
      r: Replayer<Scenario<L, M>, P>, s: Scenario<L, M>, t0: Scenario<L, M>, path0: seq<Scenario<L, M>>,
      t: Scenario<L, M>, path: seq<Scenario<L, M>>, changed: bool, ci: nat, mi: nat)
    reads r
  {
    && Kept(r, s, t, path, changed)
    && (!changed ==>
          && t == t0 && path == path0
          && forall mj: nat :: mi <= mj && CanDropMutation(t0, ci, mj) ==> r.Refused(DropMutation(t0, ci, mj)))
  }

  method MutationTurn<L(!new), M(!new), P(!new)>(
      r: Replayer<Scenario<L, M>, P>, ghost s: Scenario<L, M>, ghost t0: Scenario<L, M>, ghost path0: seq<Scenario<L, M>>,
      t: Scenario<L, M>, ghost path: seq<Scenario<L, M>>, changed: bool, ci: nat, mi: nat)
    returns (t': Scenario<L, M>, ghost path': seq<Scenario<L, M>>, changed': bool)
    requires MutationsTried(r, s, t0, path0, t, path, changed, ci, mi + 1) && CanDropMutation(t, ci, mi)
    modifies r
    ensures r.Grew() && MutationsTried(r, s, t0, path0, t', path', changed', ci, mi)
    ensures |t'.cycles| == |t.cycles| && mi <= |t'.cycles[ci].mutations|
    ensures Run(t', |r.attempts|) == Tried(Oracle(r), Run(t, |old(r.attempts)|), DropMutation(t, ci, mi))
  {
    var ok;
    ok, t', path' := Try(r, s, t, DropMutation(t, ci, mi), path);
    changed' := changed || ok;
  }

  /** The inner loop of (b). */
  method RemoveMutationsOf<L(!new), M(!new), P(!new)>(
      r: Replayer<Scenario<L, M>, P>, ghost s: Scenario<L, M>, t0: Scenario<L, M>, ci: nat, ghost path0: seq<Scenario<L, M>>)
    returns (t: Scenario<L, M>, changed: bool, ghost path: seq<Scenario<L, M>>)
    requires r.Valid() && Chain(path0, s, t0) && AllReproduced(r, path0) && ci < |t0.cycles|
    modifies r
    ensures r.Grew() && MutationsTried(r, s, t0, path0, t, path, changed, ci, 0)
    ensures Run(t, |r.attempts|) ==
      MutationsDown(Oracle(r), Run(t0, |old(r.attempts)|), ci, |t0.cycles[ci].mutations|)
  {
    t, changed, path := t0, false, path0;
    var mi: nat := |t0.cycles[ci].mutations|;
    ghost var goal := MutationsDown(Oracle(r), Run(t0, |r.attempts|), ci, mi);
    NoMutationTried(r, s, t0, path0, ci, mi);
    while mi > 0 && |t.cycles[ci].mutations| > 1
      invariant r.Longer() && MutationsTried(r, s, t0, path0, t, path, changed, ci, mi)
      invariant ci < |t.cycles| && mi <= |t.cycles[ci].mutations|
      invariant goal == MutationsDown(Oracle(r), Run(t, |r.attempts|), ci, mi)
    {
      mi := mi - 1;
      MutationsNext(Oracle(r), Run(t, |r.attempts|), ci, mi);
      t, path, changed := MutationTurn(r, s, t0, path0, t, path, changed, ci, mi);
    }
    AllMutationsTried(r, s, t0, path0, t, path, changed, ci, mi);
    r.LongerGrew();
  }

  lemma NoMutationTried<L(!new), M(!new), P(!new)>(
      r: Replayer<Scenario<L, M>, P>, s: Scenario<L, M>, t0: Scenario<L, M>, path0: seq<Scenario<L, M>>, ci: nat, n: nat)
    requires r.Valid() && Chain(path0, s, t0) && AllReproduced(r, path0)
    requires ci < |t0.cycles| && n == |t0.cycles[ci].mutations|
    ensures MutationsTried(r, s, t0, path0, t0, path0, false, ci, n)
  {}

  lemma AllMutationsTried<L(!new), M(!new), P(!new)>(
      r: Replayer<Scenario<L, M>, P>, s: Scenario<L, M>, t0: Scenario<L, M>, path0: seq<Scenario<L, M>>,
      t: Scenario<L, M>, path: seq<Scenario<L, M>>, changed: bool, ci: nat, mi: nat)
    requires MutationsTried(r, s, t0, path0, t, path, changed, ci, mi)
    requires ci < |t.cycles| && (mi == 0 || |t.cycles[ci].mutations| <= 1)
    ensures MutationsTried(r, s, t0, path0, t, path, changed, ci, 0)
  {}

  lemma MutationsNext<L, M>(o: (nat, Scenario<L, M>) -> bool, u: Run<Scenario<L, M>>, ci: nat, mi: nat)
    requires ci < |u.now.cycles| && mi < |u.now.cycles[ci].mutations| && |u.now.cycles[ci].mutations| > 1
    ensures MutationsDown(o, u, ci, mi + 1) == MutationsDown(o, Tried(o, u, DropMutation(u.now, ci, mi)), ci, mi)
  {}

  /** The cycles up to ci are done. */
  ghost predicate CyclesDone<L(!new), M(!new), P(!new)>(
      r: Replayer<Scenario<L, M>, P>, s: Scenario<L, M>, t: Scenario<L, M>, path: seq<Scenario<L, M>>, changed: bool, ci: nat)
    reads r
  {
    && Kept(r, s, t, path, changed)
    && (!changed ==>
          && t == s && path == [s]
          && forall cj: nat, mj: nat :: cj < ci && CanDropMutation(s, cj, mj) ==> r.Refused(DropMutation(s, cj, mj)))
  }

  method CycleStep<L(!new), M(!new), P(!new)>(
      r: Replayer<Scenario<L, M>, P>, ghost s: Scenario<L, M>, t: Scenario<L, M>, ghost path: seq<Scenario<L, M>>,
      changed: bool, ci: nat)
    returns (t': Scenario<L, M>, ghost path': seq<Scenario<L, M>>, changed': bool)
    requires CyclesDone(r, s, t, path, changed, ci) && ci < |t.cycles|
    modifies r
    ensures r.Grew() && CyclesDone(r, s, t', path', changed', ci + 1)
    ensures Run(t', |r.attempts|) == MutationsDown(Oracle(r), Run(t, |old(r.attempts)|), ci, |t.cycles[ci].mutations|)
  {
    var more;
    t', more, path' := RemoveMutationsOf(r, s, t, ci, path);
    changed' := changed || more;
  }

  method RemoveMutations<L(!new), M(!new), P(!new)>(s: Scenario<L, M>, r: Replayer<Scenario<L, M>, P>)
    returns (t: Scenario<L, M>, changed: bool, ghost path: seq<Scenario<L, M>>)
    requires r.Valid()
    modifies r
    ensures r.Valid() && r.Grew()
    ensures Chain(path, s, t) && AllReproduced(r, path) && (changed ==> |path| > 1)
    ensures !changed ==> t == s && forall ci: nat, mi: nat :: CanDropMutation(s, ci, mi) ==> r.Refused(DropMutation(s, ci, mi))
    ensures Run(t, |r.attempts|) == MutationsFrom(Oracle(r), Run(s, |old(r.attempts)|), 0)
  {
    t, changed, path := s, false, [s];
    ghost var goal := MutationsFrom(Oracle(r), Run(s, |r.attempts|), 0);
    for ci := 0 to |s.cycles|
      invariant r.Grew() && CyclesDone(r, s, t, path, changed, ci)
      invariant |t.cycles| == |s.cycles| && goal == MutationsFrom(Oracle(r), Run(t, |r.attempts|), ci)
    {
      t, path, changed := CycleStep(r, s, t, path, changed, ci);
    }
  }

  // (c) Remove row tuples from each initial statement, last first.

  /** The rows of the statement from ti on were tried. */
  ghost predicate TuplesTried<L(!new), M(!new), P(!new)>(
      r: Replayer<Scenario<L, M>, P>, s: Scenario<L, M>, t0: Scenario<L, M>, path0: seq<Scenario<L, M>>,
      t: Scenario<L, M>, path: seq<Scenario<L, M>>, changed: bool, si: nat, ti: nat)
    reads r
  {
    && Kept(r, s, t, path, changed)
    && (!changed ==>
          && t == t0 && path == path0
          && forall tj: nat :: ti <= tj && CanDropTuple(t0, si, tj) ==> r.Refused(DropTuple(t0, si, tj)))
  }

  /** One turn of the inner loop of (c): the statement is parsed again; a tuple that is gone or alone is passed over. */
  method TupleTurn<L(!new), M(!new), P(!new)>(
      r: Replayer<Scenario<L, M>, P>, ghost s: Scenario<L, M>, ghost t0: Scenario<L, M>, ghost path0: seq<Scenario<L, M>>,
      t: Scenario<L, M>, ghost path: seq<Scenario<L, M>>, changed: bool, si: nat, ti: nat)
    returns (stop: bool, t': Scenario<L, M>, ghost path': seq<Scenario<L, M>>, changed': bool)
    requires TuplesTried(r, s, t0, path0, t, path, changed, si, ti + 1) && si < |t.initialData|
    modifies r
    ensures r.Grew() && TuplesTried(r, s, t0, path0, t', path', changed', si, if stop then 0 else ti)
    ensures |t'.initialData| == |t.initialData| && (stop <==> ParseValues(t.initialData[si]).None?)
    ensures Run(t', |r.attempts|) ==
      if CanDropTuple(t, si, ti) then Tried(Oracle(r), Run(t, |old(r.attempts)|), DropTuple(t, si, ti))
      else Run(t, |old(r.attempts)|)
  {
    stop, t', path', changed' := false, t, path, changed;
    var current := ParseValues(t.initialData[si]);
    if current.None? {
      stop := true;
      return;
    }
    if |current.value.tuples| <= 1 || ti >= |current.value.tuples| {
      return;
    }
    assert CanDropTuple(t, si, ti);
    t', path', changed' := TupleTry(r, s, t0, path0, t, path, changed, si, ti);
  }

  method TupleTry<L(!new), M(!new), P(!new)>(
      r: Replayer<Scenario<L, M>, P>, ghost s: Scenario<L, M>, ghost t0: Scenario<L, M>, ghost path0: seq<Scenario<L, M>>,
      t: Scenario<L, M>, ghost path: seq<Scenario<L, M>>, changed: bool, si: nat, ti: nat)
    returns (t': Scenario<L, M>, ghost path': seq<Scenario<L, M>>, changed': bool)
    requires TuplesTried(r, s, t0, path0, t, path, changed, si, ti + 1) && CanDropTuple(t, si, ti)
    modifies r
    ensures r.Grew() && TuplesTried(r, s, t0, path0, t', path', changed', si, ti)
    ensures |t'.initialData| == |t.initialData|
    ensures Run(t', |r.attempts|) == Tried(Oracle(r), Run(t, |old(r.attempts)|), DropTuple(t, si, ti))
  {
    var ok;
    ok, t', path' := Try(r, s, t, DropTuple(t, si, ti), path);
    changed' := changed || ok;
  }

  /** The inner loop of (c). */
  method RemoveTuplesOf<L(!new), M(!new), P(!new)>(
      r: Replayer<Scenario<L, M>, P>, ghost s: Scenario<L, M>, t0: Scenario<L, M>, si: nat, ghost path0: seq<Scenario<L, M>>)
    returns (t: Scenario<L, M>, changed: bool, ghost path: seq<Scenario<L, M>>)
    requires r.Valid() && Chain(path0, s, t0) && AllReproduced(r, path0) && si < |t0.initialData|
    modifies r
    ensures r.Grew() && TuplesTried(r, s, t0, path0, t, path, changed, si, 0)
    ensures Run(t, |r.attempts|) ==
      TuplesDown(Oracle(r), Run(t0, |old(r.attempts)|), si, TupleCount(t0.initialData[si]))
  {
    t, changed, path := t0, false, path0;
    var ti := TupleCount(t0.initialData[si]);
    ghost var goal := TuplesDown(Oracle(r), Run(t0, |r.attempts|), si, ti);
    NoTupleTried(r, s, t0, path0, si, ti);
    while ti > 0
      invariant r.Longer() && TuplesTried(r, s, t0, path0, t, path, changed, si, ti)
      invariant si < |t.initialData| && goal == TuplesDown(Oracle(r), Run(t, |r.attempts|), si, ti)
    {
      ti := ti - 1;
      var stop;
      NextTupleDown(Oracle(r), Run(t, |r.attempts|), si, ti);
      stop, t, path, changed := TupleTurn(r, s, t0, path0, t, path, changed, si, ti);
      if stop {
        break;
      }
    }
    r.LongerGrew();
  }

  lemma NoTupleTried<L(!new), M(!new), P(!new)>(
      r: Replayer<Scenario<L, M>, P>, s: Scenario<L, M>, t0: Scenario<L, M>, path0: seq<Scenario<L, M>>, si: nat, n: nat)
    requires r.Valid() && Chain(path0, s, t0) && AllReproduced(r, path0)
    requires si < |t0.initialData| && n == TupleCount(t0.initialData[si])
    ensures TuplesTried(r, s, t0, path0, t0, path0, false, si, n)
  {}

  lemma NextTupleDown<L, M>(o: (nat, Scenario<L, M>) -> bool, u: Run<Scenario<L, M>>, si: nat, ti: nat)
    requires si < |u.now.initialData|
    ensures TuplesDown(o, u, si, ti + 1) ==
      if ParseValues(u.now.initialData[si]).None? then u
      else if CanDropTuple(u.now, si, ti) then TuplesDown(o, Tried(o, u, DropTuple(u.now, si, ti)), si, ti)
      else TuplesDown(o, u, si, ti)
  {}

  /** The statements up to si are done. */
  ghost predicate StatementsDone<L(!new), M(!new), P(!new)>(
      r: Replayer<Scenario<L, M>, P>, s: Scenario<L, M>, t: Scenario<L, M>, path: seq<Scenario<L, M>>, changed: bool, si: nat)
    reads r
  {
    && Kept(r, s, t, path, changed)
    && (!changed ==>
          && t == s && path == [s]
          && forall sj: nat, tj: nat :: sj < si && CanDropTuple(s, sj, tj) ==> r.Refused(DropTuple(s, sj, tj)))
  }

  method StatementStep<L(!new), M(!new), P(!new)>(
      r: Replayer<Scenario<L, M>, P>, ghost s: Scenario<L, M>, t: Scenario<L, M>, ghost path: seq<Scenario<L, M>>,
      changed: bool, si: nat)
    returns (t': Scenario<L, M>, ghost path': seq<Scenario<L, M>>, changed': bool)
    requires StatementsDone(r, s, t, path, changed, si) && si < |t.initialData|
    modifies r
    ensures r.Longer() && StatementsDone(r, s, t', path', changed', si + 1)
    ensures |t'.initialData| == |t.initialData|
    ensures TuplesFrom(Oracle(r), Run(t', |r.attempts|), si + 1) == TuplesFrom(Oracle(r), Run(t, |old(r.attempts)|), si)
  {
    var more;
    t', more, path' := RemoveTuplesOf(r, s, t, si, path);
    changed' := changed || more;
  }

  method RemoveTuples<L(!new), M(!new), P(!new)>(s: Scenario<L, M>, r: Replayer<Scenario<L, M>, P>)
    returns (t: Scenario<L, M>, changed: bool, ghost path: seq<Scenario<L, M>>)
    requires r.Valid()
    modifies r
    ensures r.Valid() && r.Grew()
    ensures Chain(path, s, t) && AllReproduced(r, path) && (changed ==> |path| > 1)
    ensures !changed ==> t == s && forall si: nat, ti: nat :: CanDropTuple(s, si, ti) ==> r.Refused(DropTuple(s, si, ti))
    ensures Run(t, |r.attempts|) == TuplesFrom(Oracle(r), Run(s, |old(r.attempts)|), 0)
  {
    t, changed, path := s, false, [s];
    ghost var goal := TuplesFrom(Oracle(r), Run(s, |r.attempts|), 0);
    for si := 0 to |s.initialData|
      invariant r.Longer() && StatementsDone(r, s, t, path, changed, si)
      invariant |t.initialData| == |s.initialData| && goal == TuplesFrom(Oracle(r), Run(t, |r.attempts|), si)
    {
      t, path, changed := StatementStep(r, s, t, path, changed, si);
    }
    r.LongerGrew();
  }

  /** Every scenario one reduction below t was tried and turned down. */
  ghost predicate Minimal<L(!new), M(!new), P(!new)>(r: Replayer<Scenario<L, M>, P>, t: Scenario<L, M>)
    reads r
  {
    forall c :: OneSmaller(t, c) ==> r.Refused(c)
  }

  lemma ConcatChains<L, M>(p: seq<Scenario<L, M>>, q: seq<Scenario<L, M>>,
                           s: Scenario<L, M>, t: Scenario<L, M>, u: Scenario<L, M>)
    requires Chain(p, s, t) && Chain(q, t, u)
    ensures Chain(p + q[1..], s, u)
  {
    var all := p + q[1..];
    forall i | 0 <= i < |all| - 1 ensures OneSmaller(all[i], all[i + 1]) {
      if i >= |p| - 1 {
        assert all[i] == q[i - (|p| - 1)] && all[i + 1] == q[i - (|p| - 1) + 1];
      }
    }
  }

  lemma NothingLeft<L(!new), M(!new), P(!new)>(r: Replayer<Scenario<L, M>, P>, t: Scenario<L, M>)
    requires forall i: nat :: CanDropCycle(t, i) ==> r.Refused(DropCycle(t, i))
    requires forall ci: nat, mi: nat :: CanDropMutation(t, ci, mi) ==> r.Refused(DropMutation(t, ci, mi))
    requires forall si: nat, ti: nat :: CanDropTuple(t, si, ti) ==> r.Refused(DropTuple(t, si, ti))
    ensures Minimal(r, t)
  {}

  /** Phases (a) and (b). */
  method DropSteps<L(!new), M(!new), P(!new)>(s: Scenario<L, M>, r: Replayer<Scenario<L, M>, P>)
    returns (t: Scenario<L, M>, changed: bool, ghost path: seq<Scenario<L, M>>)
    requires r.Valid()
    modifies r
    ensures r.Valid() && r.Grew()
    ensures Chain(path, s, t) && AllReproduced(r, path) && (changed ==> |path| > 1)
    ensures !changed ==>
      && t == s
      && (forall i: nat :: CanDropCycle(s, i) ==> r.Refused(DropCycle(s, i)))
      && forall ci: nat, mi: nat :: CanDropMutation(s, ci, mi) ==> r.Refused(DropMutation(s, ci, mi))
    ensures Run(t, |r.attempts|) ==
      MutationsFrom(Oracle(r), CyclesDown(Oracle(r), Run(s, |old(r.attempts)|), |s.cycles|), 0)
  {
    var cycles, mutations;
    ghost var p;
    t, cycles, path := RemoveCycles(s, r);
    ghost var t1 := t;
    t, mutations, p := RemoveMutations(t, r);
    ConcatChains(path, p, s, t1, t);
    path := path + p[1..];
    changed := cycles || mutations;
  }

  /** One pass of the loop: (a), (b), (c). */
  method Pass<L(!new), M(!new), P(!new)>(s: Scenario<L, M>, r: Replayer<Scenario<L, M>, P>)
    returns (t: Scenario<L, M>, changed: bool, ghost path: seq<Scenario<L, M>>)
    requires r.Valid()
    modifies r
    ensures r.Valid() && r.Grew()
    ensures Chain(path, s, t) && AllReproduced(r, path) && (changed ==> |path| > 1)
    ensures !changed ==> t == s && Minimal(r, t)
    ensures Run(t, |r.attempts|) == PassFrom(Oracle(r), Run(s, |old(r.attempts)|))
  {
    var steps, tuples;
    ghost var q;
    t, steps, path := DropSteps(s, r);
    ghost var t2 := t;
    t, tuples, q := RemoveTuples(t, r);
    ConcatChains(path, q, s, t2, t);
    path := path + q[1..];
    changed := steps || tuples;
    if !changed {
      NothingLeft(r, t);
    }
  }

  /** `shrink_scenario` in the mode that keeps SQL boundaries. */
  method ShrinkScenario<L(!new), M(!new), P(!new)>(s: Scenario<L, M>, r: Replayer<Scenario<L, M>, P>)
    returns (t: Scenario<L, M>, ghost path: seq<Scenario<L, M>>)
    requires r.Valid()
    modifies r
    ensures r.Valid() && r.Grew()
    ensures Chain(path, s, t) && AllReproduced(r, path)
    ensures Minimal(r, t)
    ensures Run(t, |r.attempts|) == ShrinkFrom(Oracle(r), Run(s, |old(r.attempts)|))
  {
    t, path := s, [s];
    var changed := true;
    ghost var goal := ShrinkFrom(Oracle(r), Run(s, |r.attempts|));
    while changed
      invariant r.Valid() && r.Grew()
      invariant goal == if changed then ShrinkFrom(Oracle(r), Run(t, |r.attempts|)) else Run(t, |r.attempts|)
      invariant Chain(path, s, t) && AllReproduced(r, path)
      invariant !changed ==> Minimal(r, t)
      decreases changed, Size(t)
    {
      ghost var before, more := t, path;
      t, changed, more := Pass(t, r);
      ChainShrinks(more, before, t);
      ConcatChains(path, more, s, before, t);
      path := path + more[1..];
    }
  }

  /**
   The guarantee for a plain failure predicate: what is returned still fails, is
   made of reductions only, and no single further reduction of it fails.
   */
  method ShrinkPredicate<L(==, !new), M(==, !new)>(s: Scenario<L, M>, stillFails: Scenario<L, M> -> bool)
    returns (t: Scenario<L, M>, ghost path: seq<Scenario<L, M>>)
    requires stillFails(s)
    ensures stillFails(t) && forall c :: OneSmaller(t, c) ==> !stillFails(c)
    ensures Chain(path, s, t) && forall c :: c in path ==> stillFails(c)
    ensures NoneEmpty(s) ==> NoneEmpty(t)
  {
    var run := (k: nat, c: Scenario<L, M>) => if stillFails(c) then Some("failed") else None;
    var r := new Replayer<Scenario<L, M>, Scenario<L, M>>(c => c, c => true, run, "failed", s);
    t, path := ShrinkScenario(s, r);
    forall c | OneSmaller(t, c) ensures !stillFails(c) {
      RefusedDoesNotFail(r, c, 0);
    }
    forall i | 0 <= i < |path| ensures stillFails(path[i]) {
      if i > 0 { ReproducedFails(r, path[i], 0); }
    }
    if NoneEmpty(s) { ChainKeepsNoneEmpty(path, s, t); }
  }

  lemma NextInChain<L, M>(path: seq<Scenario<L, M>>, s: Scenario<L, M>, e: Scenario<L, M>, i: nat)
    requires Chain(path, s, e) && i < |path|
    ensures path[i] == e || exists c :: OneSmaller(path[i], c) && c in path
  {
    if i < |path| - 1 {
      assert OneSmaller(path[i], path[i + 1]) && path[i + 1] in path;
    }
  }

  /** A scenario of a chain that has no smaller one in the chain is its end. */
  lemma OnlyTheEnd<L(!new), M(!new)>(path: seq<Scenario<L, M>>, s: Scenario<L, M>, e: Scenario<L, M>, t: Scenario<L, M>)
    requires Chain(path, s, e) && t in path && forall c :: OneSmaller(t, c) ==> c !in path
    ensures t == e
  {
    var i: nat :| i < |path| && path[i] == t;
    NextInChain(path, s, e, i);
  }

  /** Every chain is a run: with the predicate that holds of its scenarios only, the shrinker goes to its end. */
  method EveryChainIsARun<L(==, !new), M(==, !new)>(path: seq<Scenario<L, M>>, s: Scenario<L, M>, ghost e: Scenario<L, M>)
    returns (t: Scenario<L, M>)
    requires Chain(path, s, e)
    ensures t == e
  {
    ghost var steps;
    t, steps := ShrinkPredicate(s, c => c in path);
    OnlyTheEnd(path, s, e, t);
  }
}
