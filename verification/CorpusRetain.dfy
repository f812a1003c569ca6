/**
 Retention of DVM regression scenarios: greedy set cover over coverage keys,
 the report of which selected files cover a redundant one, and the corpus that
 `--apply` leaves behind.
 */
module CorpusRetain {
  import opened Text
  import opened Ordering

  type Coverage = map<string, set<string>>

  /** The keys covered by a list of scenarios. */
  ghost function Union(cov: Coverage, names: seq<string>): set<string> {
    set n, k | n in names && n in cov && k in cov[n] :: k
  }

  lemma InUnion(cov: Coverage, names: seq<string>, n: string, k: string)
    requires n in names && n in cov && k in cov[n]
    ensures k in Union(cov, names)
  {}

  function NewKeys(cov: Coverage, name: string, covered: set<string>): set<string>
    requires name in cov
  {
    cov[name] - covered
  }

  // -- What the selection is ------------------------------------------------

  /** `b` brings the most new keys of all remaining scenarios; ties go to the least name. */
  ghost predicate Best(cov: Coverage, remaining: set<string>, covered: set<string>, b: string)
    requires remaining <= cov.Keys
  {
    && b in remaining
    && NewKeys(cov, b, covered) != {}
    && forall n :: n in remaining && n != b ==>
        || |NewKeys(cov, n, covered)| < |NewKeys(cov, b, covered)|
        || (|NewKeys(cov, n, covered)| == |NewKeys(cov, b, covered)| && Less(b, n))
  }

  ghost predicate Greedy(cov: Coverage, selected: seq<string>)
  {
    && Elems(selected) <= cov.Keys
    && forall i :: 0 <= i < |selected| ==> PickedBest(cov, selected, i)
  }

  ghost predicate PickedBest(cov: Coverage, selected: seq<string>, i: nat)
    requires Elems(selected) <= cov.Keys && i < |selected|
  {
    Best(cov, cov.Keys - Elems(selected[..i]), Union(cov, selected[..i]), selected[i])
  }

  /** A greedy run that stopped because no scenario brings a new key. */
  ghost predicate IsSelection(cov: Coverage, selected: seq<string>)
  {
    && Greedy(cov, selected)
    && forall n :: n in cov ==> cov[n] <= Union(cov, selected)
  }

  // -- The program ----------------------------------------------------------

  /** best is the choice among the names seen, and bestNew its new keys; none when no name brings a key. */
  ghost predicate BestSoFar(cov: Coverage, seen: set<string>, covered: set<string>, best: Option<string>, bestNew: set<string>)
    requires seen <= cov.Keys
  {
    && (best.None? ==> bestNew == {} && forall n :: n in seen ==> cov[n] <= covered)
    && (best.Some? ==> Best(cov, seen, covered, best.value) && bestNew == NewKeys(cov, best.value, covered))
  }

  /** A later name replaces the choice exactly when it brings strictly more. */
  lemma BestStep(cov: Coverage, seen: set<string>, covered: set<string>, best: Option<string>, bestNew: set<string>, name: string)
    requires seen <= cov.Keys && name in cov && BestSoFar(cov, seen, covered, best, bestNew)
    requires forall n :: n in seen ==> Less(n, name)
    ensures var newKeys := NewKeys(cov, name, covered);
      if |newKeys| > |bestNew| then BestSoFar(cov, seen + {name}, covered, Some(name), newKeys)
      else BestSoFar(cov, seen + {name}, covered, best, bestNew)
  {
    var newKeys := NewKeys(cov, name, covered);
    assert newKeys == {} ==> forall k :: k in cov[name] ==> k in covered || k in newKeys;
    if best.None? && |newKeys| > 0 {
      forall n | n in seen ensures NewKeys(cov, n, covered) == {} {}
    }
  }

  /** The inner loop: the first of the sorted names with strictly more new keys than all before it. */
  method PickBest(coverage: Coverage, remaining: set<string>, covered: set<string>)
    returns (best: Option<string>, bestNew: set<string>)
    requires remaining <= coverage.Keys
    ensures BestSoFar(coverage, remaining, covered, best, bestNew)
  {
    best, bestNew := None, {};
    var names := Sorted(remaining);
    assert Elems(names[..0]) == {};
    for i := 0 to |names|
      invariant Elems(names[..i]) <= remaining
      invariant BestSoFar(coverage, Elems(names[..i]), covered, best, bestNew)
    {
      NextName(names, i);
      BestStep(coverage, Elems(names[..i]), covered, best, bestNew, names[i]);
      var newKeys := coverage[names[i]] - covered;
      if |newKeys| > |bestNew| {
        best, bestNew := Some(names[i]), newKeys;
      }
    }
    assert names[..|names|] == names;
  }

  lemma NextName(names: seq<string>, i: nat)
    requires i < |names| && Ascending(names)
    ensures names[..i + 1] == names[..i] + [names[i]]
    ensures Elems(names[..i + 1]) == Elems(names[..i]) + {names[i]} && names[i] in Elems(names)
    ensures forall n :: n in Elems(names[..i]) ==> Less(n, names[i])
  {
    assert names[..i + 1] == names[..i] + [names[i]];
  }

  method GreedySetCover(coverage: Coverage) returns (selected: seq<string>, redundant: seq<string>)
    ensures IsSelection(coverage, selected)
    ensures redundant == Sorted(coverage.Keys - Elems(selected))
  {
    var remaining := coverage.Keys;
    var covered: set<string> := {};
    selected := [];
    while true
      invariant Greedy(coverage, selected)
      invariant remaining == coverage.Keys - Elems(selected)
      invariant covered == Union(coverage, selected)
      decreases |remaining|
    {
      var best, bestNew := PickBest(coverage, remaining, covered);
      if best.None? || bestNew == {} {
        NoneLeft(coverage, selected, best, bestNew);
        break;
      }
      ExtendGreedy(coverage, selected, best.value);
      TakeOut(coverage.Keys, selected, best.value);
      selected := selected + [best.value];
      covered := covered + bestNew;
      remaining := remaining - {best.value};
    }
    redundant := Sorted(coverage.Keys - Elems(selected));
  }

  lemma TakeOut(names: set<string>, selected: seq<string>, b: string)
    requires b in names - Elems(selected)
    ensures var left := names - Elems(selected); left - {b} == names - Elems(selected + [b]) && |left - {b}| < |left|
  {
    assert Elems(selected + [b]) == Elems(selected) + {b};
  }

  /** When no remaining scenario brings a key, everything is covered. */
  lemma NoneLeft(cov: Coverage, selected: seq<string>, best: Option<string>, bestNew: set<string>)
    requires Elems(selected) <= cov.Keys && (best.None? || bestNew == {})
    requires BestSoFar(cov, cov.Keys - Elems(selected), Union(cov, selected), best, bestNew)
    ensures forall n :: n in cov ==> cov[n] <= Union(cov, selected)
  {
    forall n | n in cov ensures cov[n] <= Union(cov, selected) {
      if n in selected {
        forall k | k in cov[n] ensures k in Union(cov, selected) { InUnion(cov, selected, n, k); }
      }
    }
  }

  lemma ExtendGreedy(cov: Coverage, selected: seq<string>, b: string)
    requires Greedy(cov, selected)
    requires Best(cov, cov.Keys - Elems(selected), Union(cov, selected), b)
    ensures Greedy(cov, selected + [b])
    ensures Elems(selected + [b]) == Elems(selected) + {b}
    ensures Union(cov, selected + [b]) == Union(cov, selected) + NewKeys(cov, b, Union(cov, selected))
  {
    var next := selected + [b];
    assert Elems(next) == Elems(selected) + {b};
    assert next[..|selected|] == selected;
    forall i | 0 <= i < |next| ensures PickedBest(cov, next, i) {
      if i < |selected| {
        assert PickedBest(cov, selected, i);
        assert next[..i] == selected[..i];
      }
    }
  }

  lemma ExtendUnion(cov: Coverage, names: seq<string>, n: string)
    requires n in cov
    ensures Elems(names + [n]) == Elems(names) + {n}
    ensures Union(cov, names + [n]) == Union(cov, names) + cov[n]
  {
    assert forall m :: m in names + [n] <==> m in names || m == n;
  }

  /** Of the names, n is the first that holds some wanted key. */
  ghost predicate FirstHolder(keys: set<string>, cov: Coverage, names: set<string>, n: string) {
    n in names && n in cov && exists k :: k in keys && k in cov[n] && NoneBefore(cov, names, n, k)
  }

  ghost predicate NoneBefore(cov: Coverage, names: set<string>, n: string, k: string) {
    forall m :: m in names && m in cov && Less(m, n) ==> k !in cov[m]
  }

  /** `_find_covering`: walks the selected names in order until nothing is left to cover. */
  method FindCovering(keys: set<string>, selected: Coverage) returns (covering: seq<string>)
    ensures Ascending(covering) && forall n :: n in covering <==> FirstHolder(keys, selected, selected.Keys, n)
    ensures keys * Union(selected, Sorted(selected.Keys)) <= Union(selected, covering)
  {
    var remaining := keys;
    covering := [];
    var names := Sorted(selected.Keys);
    for i := 0 to |names|
      invariant Walked(keys, selected, names[..i], covering)
      invariant remaining == keys - Union(selected, covering)
    {
      if remaining == {} {
        AllCovered(keys, selected, names, i, covering);
        return;
      }
      NextWalk(keys, selected, names, i, covering);
      var overlap := selected[names[i]] * remaining;
      if overlap != {} {
        covering := covering + [names[i]];
        remaining := remaining - overlap;
      }
    }
    AllWalked(keys, selected, names, covering);
  }

  lemma AllWalked(keys: set<string>, selected: Coverage, names: seq<string>, covering: seq<string>)
    requires Elems(names) == selected.Keys && Walked(keys, selected, names[..|names|], covering)
    ensures forall n :: n in covering <==> FirstHolder(keys, selected, selected.Keys, n)
    ensures keys * Union(selected, names) <= Union(selected, covering)
  {
    assert names[..|names|] == names;
    assert forall n :: n in names <==> n in Elems(names);
  }

  /** One turn of the walk. */
  lemma NextWalk(keys: set<string>, selected: Coverage, names: seq<string>, i: nat, covering: seq<string>)
    requires Ascending(names) && Elems(names) == selected.Keys && i < |names|
    requires Walked(keys, selected, names[..i], covering)
    ensures names[i] in selected
    ensures var remaining := keys - Union(selected, covering);
      if selected[names[i]] * remaining == {} then Walked(keys, selected, names[..i + 1], covering)
      else Walked(keys, selected, names[..i + 1], covering + [names[i]])
           && keys - Union(selected, covering + [names[i]]) == remaining - selected[names[i]] * remaining
  {
    NextName(names, i);
    AllBefore(names, selected.Keys, i);
    assert names[..i + 1] == names[..i] + [names[i]] && names[i] in Elems(names);
    WalkOn(keys, selected, names[..i], covering, names[i]);
  }

  /** What holds once the names in seen are done: their first holders are listed, and cover what they all have. */
  ghost predicate Walked(keys: set<string>, selected: Coverage, seen: seq<string>, covering: seq<string>) {
    && Ascending(covering) && (forall n :: n in covering <==> n in seen && FirstHolder(keys, selected, selected.Keys, n))
    && keys * Union(selected, seen) == keys * Union(selected, covering)
  }

  /** The sorted names up to i are all that come before name i. */
  lemma AllBefore(names: seq<string>, all: set<string>, i: nat)
    requires Ascending(names) && Elems(names) == all && i < |names|
    ensures forall m :: m in all && Less(m, names[i]) <==> m in names[..i]
  {
    forall m ensures m in all && Less(m, names[i]) <==> m in names[..i] {
      if m in all && Less(m, names[i]) {
        assert m in Elems(names);
        var j :| 0 <= j < |names| && names[j] == m;
        if j > i { LessIsAsymmetric(names[i], m); } else { LessIsAsymmetric(m, names[i]); }
        assert names[..i][j] == m;
      }
      if m in names[..i] {
        assert m in Elems(names);
      }
    }
  }

  /** A key that no name before n has is one that the seen names do not cover. */
  lemma NoneSeen(selected: Coverage, seen: seq<string>, n: string, k: string)
    requires forall m :: m in selected.Keys && Less(m, n) <==> m in seen
    ensures NoneBefore(selected, selected.Keys, n, k) <==> k !in Union(selected, seen)
  {}

  lemma InOrder(names: seq<string>, l: nat, j: nat)
    requires Ascending(names) && l < |names| && j < |names| && !Less(names[l], names[j])
    ensures j <= l
  {}

  lemma AllCovered(keys: set<string>, selected: Coverage, names: seq<string>, i: nat, covering: seq<string>)
    requires i < |names| && Ascending(names) && Elems(names) == selected.Keys
    requires Walked(keys, selected, names[..i], covering) && keys - Union(selected, covering) == {}
    ensures forall n :: n in covering <==> FirstHolder(keys, selected, selected.Keys, n)
    ensures keys * Union(selected, names) <= Union(selected, covering)
  {
    assert forall k :: k in keys && k !in Union(selected, covering) ==> k in keys - Union(selected, covering);
    forall n | FirstHolder(keys, selected, selected.Keys, n) ensures n in names[..i] {
      assert n in Elems(names);
      var j :| 0 <= j < |names| && names[j] == n;
      var k :| k in keys && k in selected[n] && NoneBefore(selected, selected.Keys, n, k);
      assert k in keys * Union(selected, names[..i]);
      var m :| m in names[..i] && m in selected && k in selected[m];
      var l :| 0 <= l < i && names[l] == m;
      InOrder(names, l, j);
      assert names[..i][j] == n;
    }
  }

  lemma WalkOn(keys: set<string>, selected: Coverage, seen: seq<string>, covering: seq<string>, n: string)
    requires Walked(keys, selected, seen, covering) && n in selected
    requires forall m :: m in selected.Keys && Less(m, n) <==> m in seen
    ensures var remaining := keys - Union(selected, covering);
      if selected[n] * remaining == {} then Walked(keys, selected, seen + [n], covering)
      else Walked(keys, selected, seen + [n], covering + [n])
           && keys - Union(selected, covering + [n]) == remaining - selected[n] * remaining
  {
    var remaining := keys - Union(selected, covering);
    ExtendUnion(selected, seen, n);
    ExtendUnion(selected, covering, n);
    HolderIff(keys, selected, seen, covering, n);
    WalkKeys(keys, selected[n], Union(selected, seen), Union(selected, covering));
    if selected[n] * remaining != {} {
      assert forall m :: m in covering ==> m in seen;
    }
  }

  lemma HolderIff(keys: set<string>, selected: Coverage, seen: seq<string>, covering: seq<string>, n: string)
    requires Walked(keys, selected, seen, covering) && n in selected
    requires forall m :: m in selected.Keys && Less(m, n) <==> m in seen
    ensures FirstHolder(keys, selected, selected.Keys, n) <==> selected[n] * (keys - Union(selected, covering)) != {}
  {
    if k :| k in selected[n] * (keys - Union(selected, covering)) {
      assert k !in keys * Union(selected, covering);
      NoneSeen(selected, seen, n, k);
    }
    if FirstHolder(keys, selected, selected.Keys, n) {
      var k :| k in keys && k in selected[n] && NoneBefore(selected, selected.Keys, n, k);
      NoneSeen(selected, seen, n, k);
      assert k !in keys * Union(selected, seen);
      assert k in selected[n] * (keys - Union(selected, covering));
    }
  }

  lemma WalkKeys(keys: set<string>, own: set<string>, seen: set<string>, covered: set<string>)
    requires keys * seen == keys * covered
    ensures keys * (seen + own) == keys * (covered + own)
    ensures own * (keys - covered) == {} ==> keys * (seen + own) == keys * covered
    ensures keys - (covered + own) == (keys - covered) - own * (keys - covered)
  {
    forall k ensures k in keys * (seen + own) <==> k in keys * (covered + own) {
      assert k in keys * seen <==> k in keys * covered;
    }
    if own * (keys - covered) == {} {
      forall k | k in keys && k in own ensures k in covered {
        assert k !in own * (keys - covered);
      }
    }
  }

  const HISTORICAL_ANCHORS: set<string> := {"cor938_physical_width.json", "cor939_two_leaf_snapshot.json"}

  function Restrict(cov: Coverage, names: set<string>): Coverage {
    map n | n in cov && n in names :: cov[n]
  }

  /** The report on one redundant scenario: the selected files that are first to hold one of its keys, which cover all. */
  ghost predicate Explains(coverage: Coverage, selected: seq<string>, name: string, files: seq<string>) {
    && name in coverage && Ascending(files)
    && (forall n :: n in files <==> FirstHolder(coverage[name], coverage, Elems(selected), n))
    && coverage[name] <= Union(coverage, files)
  }

  /** Holding a key first among the selected files is the same within the whole corpus. */
  lemma HoldersInCorpus(keys: set<string>, cov: Coverage, names: set<string>, n: string)
    ensures var part := Restrict(cov, names); FirstHolder(keys, part, part.Keys, n) <==> FirstHolder(keys, cov, names, n)
  {
    var part := Restrict(cov, names);
    if n in part {
      forall k ensures NoneBefore(part, part.Keys, n, k) <==> NoneBefore(cov, names, n, k) {
        if !NoneBefore(cov, names, n, k) {
          var m :| m in names && m in cov && Less(m, n) && k in cov[m];
          assert m in part.Keys;
        }
      }
    }
  }

  lemma ReportIsRight(coverage: Coverage, selected: seq<string>, name: string, covering: seq<string>)
    requires IsSelection(coverage, selected) && name in coverage && Ascending(covering)
    requires var part := Restrict(coverage, Elems(selected));
      && (forall n :: n in covering <==> FirstHolder(coverage[name], part, part.Keys, n))
      && coverage[name] * Union(part, Sorted(part.Keys)) <= Union(part, covering)
    ensures Explains(coverage, selected, name, covering)
  {
    forall n ensures n in covering <==> FirstHolder(coverage[name], coverage, Elems(selected), n) {
      HoldersInCorpus(coverage[name], coverage, Elems(selected), n);
    }
    SelectedCover(coverage, selected, covering, coverage[name]);
  }

  method ExplainAll(coverage: Coverage, selected: seq<string>, redundant: seq<string>)
    returns (coveredBy: seq<seq<string>>)
    requires IsSelection(coverage, selected) && Elems(redundant) <= coverage.Keys
    ensures |coveredBy| == |redundant|
    ensures forall i :: 0 <= i < |redundant| ==> Explains(coverage, selected, redundant[i], coveredBy[i])
  {
    coveredBy := [];
    for i := 0 to |redundant|
      invariant |coveredBy| == i
      invariant forall j :: 0 <= j < i ==> Explains(coverage, selected, redundant[j], coveredBy[j])
    {
      var name := redundant[i];
      assert name in Elems(redundant);
      var covering := FindCovering(coverage[name], Restrict(coverage, Elems(selected)));
      ReportIsRight(coverage, selected, name, covering);
      coveredBy := coveredBy + [covering];
    }
  }

  /** The run of the tool: the files reported for each redundant scenario and the corpus left on disk. */
  method Retain(coverage: Coverage, apply: bool)
    returns (selected: seq<string>, redundant: seq<string>, coveredBy: seq<seq<string>>, corpus: Coverage)
    ensures IsSelection(coverage, selected)
    ensures redundant == Sorted(coverage.Keys - Elems(selected)) && |coveredBy| == |redundant|
    ensures forall i :: 0 <= i < |redundant| ==> Explains(coverage, selected, redundant[i], coveredBy[i])
    ensures corpus == if apply then Restrict(coverage, Elems(selected) + HISTORICAL_ANCHORS) else coverage
    ensures Stable(coverage, corpus, selected)
  {
    selected, redundant := GreedySetCover(coverage);
    coveredBy := ExplainAll(coverage, selected, redundant);
    corpus := coverage;
    if apply {
      corpus := corpus - (Elems(redundant) - HISTORICAL_ANCHORS);
      AfterDeletion(coverage, Elems(selected));
    }
    LeftOnDisk(coverage, selected, corpus);
  }

  lemma AfterDeletion(coverage: Coverage, selected: set<string>)
    requires selected <= coverage.Keys
    ensures coverage - ((coverage.Keys - selected) - HISTORICAL_ANCHORS)
         == Restrict(coverage, selected + HISTORICAL_ANCHORS)
  {}

  /** The corpus left on disk selects the same list again and loses no key. */
  ghost predicate Stable(coverage: Coverage, corpus: Coverage, selected: seq<string>) {
    && (forall rerun :: IsSelection(corpus, rerun) <==> rerun == selected)
    && (forall n :: n in coverage ==> coverage[n] <= Union(corpus, Sorted(corpus.Keys)))
  }

  lemma LeftOnDisk(coverage: Coverage, selected: seq<string>, corpus: Coverage)
    requires IsSelection(coverage, selected)
    requires forall n :: n in corpus ==> n in coverage && corpus[n] == coverage[n]
    requires Elems(selected) <= corpus.Keys
    ensures Stable(coverage, corpus, selected)
  {
    assert corpus == Restrict(coverage, corpus.Keys);
    RerunIsStable(coverage, corpus.Keys, selected);
    forall rerun | IsSelection(corpus, rerun) ensures rerun == selected {
      SelectionIsUnique(corpus, rerun, selected);
    }
    UnionSplits(coverage, corpus.Keys, selected);
  }

  /** Covering a key set within the selected files is covering it within the corpus. */
  lemma SelectedCover(cov: Coverage, selected: seq<string>, covering: seq<string>, keys: set<string>)
    requires Elems(selected) <= cov.Keys && keys <= Union(cov, selected)
    requires var part := Restrict(cov, Elems(selected));
      Elems(covering) <= part.Keys && keys * Union(part, Sorted(part.Keys)) <= Union(part, covering)
    ensures keys <= Union(cov, covering)
  {
    var part := Restrict(cov, Elems(selected));
    forall k | k in keys ensures k in Union(cov, covering) {
      var n :| n in selected && n in cov && k in cov[n];
      assert n in Elems(Sorted(part.Keys));
      assert k in Union(part, covering);
    }
  }

  lemma UnionSplits(cov: Coverage, kept: set<string>, selected: seq<string>)
    requires IsSelection(cov, selected) && Elems(selected) <= kept <= cov.Keys
    ensures forall n :: n in cov ==> cov[n] <= Union(Restrict(cov, kept), Sorted(kept))
  {
    forall k | k in Union(cov, selected) ensures k in Union(Restrict(cov, kept), Sorted(kept)) {
      var n :| n in selected && n in cov && k in cov[n];
      assert n in Elems(selected);
      assert n in Elems(Sorted(kept));
      InUnion(Restrict(cov, kept), Sorted(kept), n, k);
    }
  }

  /** What stays on disk: the selected scenarios and the two anchors. */
  lemma KeptOnDisk(coverage: Coverage, selected: seq<string>, n: string)
    ensures n in Restrict(coverage, Elems(selected) + HISTORICAL_ANCHORS) <==>
      n in coverage && (n in selected || n == "cor938_physical_width.json" || n == "cor939_two_leaf_snapshot.json")
  {}

  // -- Ties -----------------------------------------------------------------

  /** Of two scenarios with the same keys only the one that comes first by name can be selected. */
  lemma SameKeysKeepFirst(cov: Coverage, selected: seq<string>, a: string, b: string)
    requires IsSelection(cov, selected) && a in cov && b in cov && cov[a] == cov[b] && Less(a, b)
    ensures b !in selected
  {
    LessIsAsymmetric(a, b);
    forall i | 0 <= i < |selected| ensures selected[i] != b {
      if selected[i] == b {
        TwinComesLater(cov, selected, i, a);
      }
    }
  }

  lemma TwinBringsNothing(cov: Coverage, before: seq<string>, a: string, b: string)
    requires a in cov && b in cov && cov[a] == cov[b]
    ensures a in before ==> NewKeys(cov, b, Union(cov, before)) == {}
  {}

  lemma TwinComesLater(cov: Coverage, selected: seq<string>, i: nat, a: string)
    requires Greedy(cov, selected) && i < |selected| && selected[i] in cov
    requires a in cov && a != selected[i] && cov[a] == cov[selected[i]]
    ensures Less(selected[i], a)
  {
    var before := selected[..i];
    assert PickedBest(cov, selected, i);
    TwinBringsNothing(cov, before, a, selected[i]);
    assert NewKeys(cov, a, Union(cov, before)) == NewKeys(cov, selected[i], Union(cov, before));
  }

  // -- Stability ------------------------------------------------------------

  lemma BestIsUnique(cov: Coverage, remaining: set<string>, covered: set<string>, a: string, b: string)
    requires remaining <= cov.Keys
    requires Best(cov, remaining, covered, a) && Best(cov, remaining, covered, b)
    ensures a == b
  {
    if a != b && Less(a, b) { LessIsAsymmetric(a, b); }
  }

  /** A coverage map has at most one greedy selection, names and order. */
  lemma SelectionIsUnique(cov: Coverage, a: seq<string>, b: seq<string>)
    requires IsSelection(cov, a) && IsSelection(cov, b)
    ensures a == b
  {
    AgreeUpTo(cov, a, b, if |a| <= |b| then |a| else |b|);
    if |a| <= |b| { Finished(cov, a, b); } else { Finished(cov, b, a); }
  }

  lemma {:induction false} AgreeUpTo(cov: Coverage, a: seq<string>, b: seq<string>, n: nat)
    requires Greedy(cov, a) && Greedy(cov, b) && n <= |a| && n <= |b|
    ensures a[..n] == b[..n]
  {
    if n > 0 {
      AgreeUpTo(cov, a, b, n - 1);
      assert PickedBest(cov, a, n - 1) && PickedBest(cov, b, n - 1);
      BestIsUnique(cov, cov.Keys - Elems(a[..n - 1]), Union(cov, a[..n - 1]), a[n - 1], b[n - 1]);
      assert a[..n] == a[..n - 1] + [a[n - 1]];
      assert b[..n] == b[..n - 1] + [b[n - 1]];
    }
  }

  /** A finished selection has no greedy continuation. */
  lemma Finished(cov: Coverage, a: seq<string>, b: seq<string>)
    requires IsSelection(cov, a) && Greedy(cov, b)
    requires |a| <= |b| && a == b[..|a|]
    ensures a == b
  {
    assert |a| < |b| ==> PickedBest(cov, b, |a|);
  }

  /** Deleting any redundant scenarios leaves the same selection. */
  lemma RerunIsStable(cov: Coverage, kept: set<string>, selected: seq<string>)
    requires IsSelection(cov, selected) && Elems(selected) <= kept <= cov.Keys
    ensures IsSelection(Restrict(cov, kept), selected)
  {
    var part := Restrict(cov, kept);
    assert part.Keys == kept;
    forall i | 0 <= i < |selected| ensures PickedBest(part, selected, i) {
      assert PickedBest(cov, selected, i) && selected[i] in Elems(selected);
      StillBest(cov, kept, selected[..i], selected[i]);
    }
    SameUnion(cov, kept, selected);
  }

  /** The best choice stays the best among fewer names. */
  lemma StillBest(cov: Coverage, kept: set<string>, before: seq<string>, b: string)
    requires Elems(before) <= kept <= cov.Keys && b in kept && Best(cov, cov.Keys - Elems(before), Union(cov, before), b)
    ensures var part := Restrict(cov, kept); Best(part, part.Keys - Elems(before), Union(part, before), b)
  {
    var part := Restrict(cov, kept);
    SameUnion(cov, kept, before);
    assert part.Keys == kept;
    assert forall n :: n in kept ==> NewKeys(part, n, Union(cov, before)) == NewKeys(cov, n, Union(cov, before));
  }

  lemma SameUnion(cov: Coverage, kept: set<string>, names: seq<string>)
    requires Elems(names) <= kept <= cov.Keys
    ensures Union(Restrict(cov, kept), names) == Union(cov, names)
  {
    var part := Restrict(cov, kept);
    forall k | k in Union(cov, names) ensures k in Union(part, names) {
      var n :| n in names && n in cov && k in cov[n];
      assert n in Elems(names);
      InUnion(part, names, n, k);
    }
  }
}
