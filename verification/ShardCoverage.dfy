/** The shards of a release contract: each required case is observed by exactly one shard. */
module ShardCoverage {
  import opened Text
  import opened Ordering
  import opened ReleaseEvidence

  datatype Shard = Shard(id: string, suiteId: string, index: int, count: int, cases: seq<string>)
  datatype ShardTag = ShardTag(id: string, suiteId: Option<string>, index: int, count: int)

  /** What the check reads of a suite result; observed holds the ids of its observed cases. */
  datatype SuiteResult = SuiteResult(suiteId: string, tag: Option<ShardTag>, selected: seq<string>, observed: seq<string>)

  // -- Lists of lists -------------------------------------------------------

  function Flatten(lists: seq<seq<string>>): seq<string> {
    if lists == [] then [] else Flatten(lists[..|lists| - 1]) + lists[|lists| - 1]
  }

  lemma FlattenAppend(lists: seq<seq<string>>, more: seq<string>)
    ensures Flatten(lists + [more]) == Flatten(lists) + more
  {
    assert (lists + [more])[..|lists|] == lists;
  }

  predicate Disjoint(a: seq<string>, b: seq<string>) {
    forall x :: x in a ==> x !in b
  }

  lemma NoRepeatsConcat(a: seq<string>, b: seq<string>)
    ensures NoRepeats(a + b) <==> NoRepeats(a) && NoRepeats(b) && Disjoint(a, b)
  {
    var s := a + b;
    assert forall i :: 0 <= i < |a| ==> s[i] == a[i];
    assert forall j {:trigger b[j]} :: 0 <= j < |b| ==> s[|a| + j] == b[j];
    if NoRepeats(a) && NoRepeats(b) && Disjoint(a, b) {
      forall i, j | 0 <= i < j < |s| ensures s[i] != s[j] {
        if i < |a| <= j {
          assert s[i] in a && s[j] == b[j - |a|];
        }
      }
    }
  }

  lemma {:induction false} InFlatten(lists: seq<seq<string>>, i: nat, x: string)
    requires i < |lists| && x in lists[i]
    ensures x in Flatten(lists)
  {
    if i < |lists| - 1 { InFlatten(lists[..|lists| - 1], i, x); }
  }

  lemma {:induction false} FromFlatten(lists: seq<seq<string>>, x: string) returns (i: nat)
    requires x in Flatten(lists)
    ensures i < |lists| && x in lists[i]
  {
    if x in lists[|lists| - 1] {
      i := |lists| - 1;
    } else {
      i := FromFlatten(lists[..|lists| - 1], x);
    }
  }

  /** No repeats in the flattened list: an element stands at one place in one list. */
  lemma {:induction false} OnlyOnePlace(lists: seq<seq<string>>, i: nat, j: nat, x: string)
    requires NoRepeats(Flatten(lists)) && i < |lists| && j < |lists| && x in lists[i] && x in lists[j]
    ensures i == j && NoRepeats(lists[i])
  {
    var init, last := lists[..|lists| - 1], lists[|lists| - 1];
    NoRepeatsConcat(Flatten(init), last);
    if i < |init| && j < |init| {
      OnlyOnePlace(init, i, j, x);
    } else if i < |init| {
      InFlatten(init, i, x);
    } else if j < |init| {
      InFlatten(init, j, x);
    }
  }

  // -- The condition --------------------------------------------------------

  function ShardIds(shards: seq<Shard>): (r: seq<string>)
    ensures |r| == |shards| && forall i :: 0 <= i < |shards| ==> r[i] == shards[i].id
  {
    seq(|shards|, i requires 0 <= i < |shards| => shards[i].id)
  }

  function CaseLists(shards: seq<Shard>): (r: seq<seq<string>>)
    ensures |r| == |shards| && forall i :: 0 <= i < |shards| ==> r[i] == shards[i].cases
  {
    seq(|shards|, i requires 0 <= i < |shards| => shards[i].cases)
  }

  predicate ForShards(shards: seq<Shard>, r: SuiteResult) {
    exists s :: s in shards && s.suiteId == r.suiteId
  }

  /** The results of suites that belong to some shard. */
  function Relevant(shards: seq<Shard>, results: seq<SuiteResult>): seq<SuiteResult> {
    if results == [] then [] else
      var last := results[|results| - 1];
      Relevant(shards, results[..|results| - 1]) + if ForShards(shards, last) then [last] else []
  }

  /** The result is tagged with the position and the selection of shard s. */
  predicate Fits(r: SuiteResult, s: Shard) {
    && r.tag.Some? && r.tag.value.id == s.id
    && (if r.tag.value.suiteId.Some? then r.tag.value.suiteId.value else r.suiteId) == s.suiteId
    && r.tag.value.index == s.index && r.tag.value.count == s.count
    && r.selected == s.cases
  }

  predicate FitsSome(shards: seq<Shard>, r: SuiteResult) {
    exists s :: s in shards && Fits(r, s)
  }

  function TagId(r: SuiteResult): string {
    if r.tag.Some? then r.tag.value.id else ""
  }

  function TagIds(results: seq<SuiteResult>): (r: seq<string>)
    ensures |r| == |results| && forall i :: 0 <= i < |results| ==> r[i] == TagId(results[i])
  {
    seq(|results|, i requires 0 <= i < |results| => TagId(results[i]))
  }

  predicate AllFit(shards: seq<Shard>, used: seq<SuiteResult>) {
    forall r :: r in used ==> FitsSome(shards, r)
  }

  function ObservedLists(results: seq<SuiteResult>): (r: seq<seq<string>>)
    ensures |r| == |results| && forall i :: 0 <= i < |results| ==> r[i] == results[i].observed
  {
    seq(|results|, i requires 0 <= i < |results| => results[i].observed)
  }

  /** All relevant results fit a shard, no shard twice, no case observed twice. */
  predicate ResultsFit(shards: seq<Shard>, used: seq<SuiteResult>) {
    && AllFit(shards, used)
    && NoRepeats(TagIds(used))
    && NoRepeats(Flatten(ObservedLists(used)))
  }

  predicate ShardsAccepted(shards: seq<Shard>, results: seq<SuiteResult>, contractCases: seq<string>) {
    shards == [] ||
    (&& NoRepeats(ShardIds(shards))
     && NoRepeats(Flatten(CaseLists(shards)))
     && var used := Relevant(shards, results);
        && ResultsFit(shards, used)
        && (forall s :: s in shards ==> s.id in TagIds(used))
        && SameElements(contractCases, Flatten(CaseLists(shards)))
        && SameElements(Flatten(ObservedLists(used)), Flatten(CaseLists(shards))))
  }

  // -- The check ------------------------------------------------------------

  /** The inner loops: assign cases to an owner unless one is taken already. */
  method Assign(taken: map<string, string>, cases: seq<string>, owner: string)
    returns (ok: bool, taken': map<string, string>)
    ensures ok <==> NoRepeats(cases) && forall c :: c in cases ==> c !in taken
    ensures ok ==> taken' == taken + map c | c in cases :: owner
  {
    taken' := taken;
    for i := 0 to |cases|
      invariant NoRepeats(cases[..i]) && forall c :: c in cases[..i] ==> c !in taken
      invariant taken' == taken + map c | c in cases[..i] :: owner
    {
      assert cases[..i + 1] == cases[..i] + [cases[i]];
      if cases[i] in taken' {
        return false, taken';
      }
      taken' := taken'[cases[i] := owner];
    }
    assert cases[..|cases|] == cases;
    return true, taken';
  }

  /** Each case is allocated to one shard. */
  method Allocate(shards: seq<Shard>) returns (ok: bool, owners: map<string, string>)
    ensures ok <==> NoRepeats(Flatten(CaseLists(shards)))
    ensures ok ==> owners.Keys == Elems(Flatten(CaseLists(shards)))
  {
    owners := map[];
    ghost var lists := CaseLists(shards);
    for i := 0 to |shards|
      invariant NoRepeats(Flatten(lists[..i])) && owners.Keys == set c | c in Flatten(lists[..i])
    {
      assert lists[..i + 1] == lists[..i] + [lists[i]];
      FlattenAppend(lists[..i], lists[i]);
      NoRepeatsConcat(Flatten(lists[..i]), lists[i]);
      var fine;
      fine, owners := Assign(owners, shards[i].cases, shards[i].id);
      if !fine {
        RepeatsStay(lists, i + 1);
        return false, owners;
      }
    }
    assert lists[..|lists|] == lists;
    return true, owners;
  }

  lemma {:induction false} RepeatsStay(lists: seq<seq<string>>, n: nat)
    requires n <= |lists|
    ensures NoRepeats(Flatten(lists)) ==> NoRepeats(Flatten(lists[..n]))
    decreases |lists|
  {
    if n == |lists| {
      assert lists[..n] == lists;
    } else {
      var init := lists[..|lists| - 1];
      NoRepeatsConcat(Flatten(init), lists[|lists| - 1]);
      RepeatsStay(init, n);
      assert init[..n] == lists[..n];
    }
  }

  /** expected_shards.get(id): with distinct ids, the shard of that name. */
  method FindShard(shards: seq<Shard>, id: string) returns (r: Option<Shard>)
    ensures r.Some? ==> r.value in shards && r.value.id == id
    ensures r.None? ==> forall s :: s in shards ==> s.id != id
  {
    for i := 0 to |shards|
      invariant forall s :: s in shards[..i] ==> s.id != id
    {
      assert shards[..i + 1] == shards[..i] + [shards[i]];
      if shards[i].id == id {
        return Some(shards[i]);
      }
    }
    assert shards[..|shards|] == shards;
    return None;
  }

  lemma SameIdSameShard(shards: seq<Shard>, s: Shard, t: Shard)
    requires NoRepeats(ShardIds(shards)) && s in shards && t in shards && s.id == t.id
    ensures s == t
  {
    var i :| 0 <= i < |shards| && shards[i] == s;
    var j :| 0 <= j < |shards| && shards[j] == t;
    assert ShardIds(shards)[i] == ShardIds(shards)[j];
  }

  /** The result's own checks, before its cases are assigned. */
  method ValidateTag(shards: seq<Shard>, r: SuiteResult) returns (ok: bool)
    requires NoRepeats(ShardIds(shards))
    ensures ok <==> FitsSome(shards, r)
  {
    if r.tag.None? {
      return false;
    }
    var tag := r.tag.value;
    var expected := FindShard(shards, tag.id);
    if expected.None? {
      return false;
    }
    var s := expected.value;
    forall t | t in shards && Fits(r, t) ensures t == s { SameIdSameShard(shards, s, t); }
    if (if tag.suiteId.Some? then tag.suiteId.value else r.suiteId) != s.suiteId {
      return false;
    }
    if tag.index != s.index || tag.count != s.count {
      return false;
    }
    return r.selected == s.cases;
  }

  lemma ExtendResults(shards: seq<Shard>, used: seq<SuiteResult>, r: SuiteResult)
    ensures AllFit(shards, used + [r]) <==> AllFit(shards, used) && FitsSome(shards, r)
    ensures TagIds(used + [r]) == TagIds(used) + [TagId(r)]
    ensures NoRepeats(TagIds(used + [r])) <==> NoRepeats(TagIds(used)) && TagId(r) !in TagIds(used)
    ensures Flatten(ObservedLists(used + [r])) == Flatten(ObservedLists(used)) + r.observed
    ensures NoRepeats(Flatten(ObservedLists(used + [r]))) <==>
      NoRepeats(Flatten(ObservedLists(used))) && NoRepeats(r.observed) && Disjoint(Flatten(ObservedLists(used)), r.observed)
  {
    var more := used + [r];
    assert forall x :: x in more <==> x in used || x == r;
    assert ObservedLists(more) == ObservedLists(used) + [r.observed];
    FlattenAppend(ObservedLists(used), r.observed);
    NoRepeatsConcat(Flatten(ObservedLists(used)), r.observed);
    assert TagIds(more) == TagIds(used) + [TagId(r)];
    NoRepeatsConcat(TagIds(used), [TagId(r)]);
  }

  lemma {:induction false} UsedGrows(shards: seq<Shard>, results: seq<SuiteResult>, n: nat)
    requires n <= |results|
    ensures ResultsFit(shards, Relevant(shards, results)) ==> ResultsFit(shards, Relevant(shards, results[..n]))
    decreases |results|
  {
    if n == |results| {
      assert results[..n] == results;
    } else {
      var init, last := results[..|results| - 1], results[|results| - 1];
      UsedGrows(shards, init, n);
      assert init[..n] == results[..n];
      if ForShards(shards, last) {
        ExtendResults(shards, Relevant(shards, init), last);
      } else {
        assert Relevant(shards, init) + [] == Relevant(shards, init);
      }
    }
  }

  /** One result of a shard's suite: checked, then its cases are assigned to its shard. */
  method Observe(shards: seq<Shard>, r: SuiteResult, ghost used: seq<SuiteResult>,
                 seen: set<string>, observers: map<string, string>)
    returns (ok: bool, seen': set<string>, observers': map<string, string>)
    requires NoRepeats(ShardIds(shards)) && ResultsFit(shards, used)
    requires seen == Elems(TagIds(used)) && observers.Keys == Elems(Flatten(ObservedLists(used)))
    ensures ok <==> ResultsFit(shards, used + [r])
    ensures ok ==> seen' == Elems(TagIds(used + [r])) && observers'.Keys == Elems(Flatten(ObservedLists(used + [r])))
  {
    ExtendResults(shards, used, r);
    seen', observers' := seen, observers;
    ok := ValidateTag(shards, r);
    if !ok {
      return;
    }
    if r.tag.value.id in seen {
      ok := false;
      return;
    }
    ok, observers' := Assign(observers, r.observed, r.tag.value.id);
    seen' := seen + {r.tag.value.id};
  }

  lemma RelevantStep(shards: seq<Shard>, results: seq<SuiteResult>, i: nat)
    requires i < |results|
    ensures Relevant(shards, results[..i + 1]) ==
      Relevant(shards, results[..i]) + if ForShards(shards, results[i]) then [results[i]] else []
  {
    assert results[..i + 1][..i] == results[..i] && results[..i + 1][i] == results[i];
  }

  /** The loop over the suite results. */
  method ObserveAll(shards: seq<Shard>, results: seq<SuiteResult>)
    returns (ok: bool, seen: set<string>, observers: map<string, string>)
    requires NoRepeats(ShardIds(shards))
    ensures ok <==> ResultsFit(shards, Relevant(shards, results))
    ensures ok ==> seen == Elems(TagIds(Relevant(shards, results)))
    ensures ok ==> observers.Keys == Elems(Flatten(ObservedLists(Relevant(shards, results))))
  {
    seen, observers := {}, map[];
    ghost var used: seq<SuiteResult> := [];
    for i := 0 to |results|
      invariant used == Relevant(shards, results[..i]) && ResultsFit(shards, used)
      invariant seen == Elems(TagIds(used)) && observers.Keys == Elems(Flatten(ObservedLists(used)))
    {
      RelevantStep(shards, results, i);
      if !ForShards(shards, results[i]) {
        assert used + [] == used;
        continue;
      }
      ok, seen, observers := Observe(shards, results[i], used, seen, observers);
      used := used + [results[i]];
      if !ok {
        UsedGrows(shards, results, i + 1);
        return;
      }
    }
    assert results[..|results|] == results;
    ok := true;
  }

  /** The shard check of the release evidence. */
  method CheckShards(shards: seq<Shard>, results: seq<SuiteResult>, contractCases: seq<string>) returns (ok: bool)
    ensures ok <==> ShardsAccepted(shards, results, contractCases)
    ensures shards == [] ==> ok
  {
    if shards == [] {
      return true;
    }
    if !NoRepeats(ShardIds(shards)) {
      return false;
    }
    var fine, owners := Allocate(shards);
    if !fine {
      return false;
    }
    var good, seen, observers := ObserveAll(shards, results);
    if !good {
      return false;
    }
    if exists s :: s in shards && s.id !in seen {
      return false;
    }
    ghost var all := Flatten(CaseLists(shards));
    SameSets(contractCases, all);
    SameSets(Flatten(ObservedLists(Relevant(shards, results))), all);
    if Elems(contractCases) != owners.Keys {
      return false;
    }
    return observers.Keys == owners.Keys;
  }

  lemma SameSets(a: seq<string>, b: seq<string>)
    ensures SameElements(a, b) <==> Elems(a) == Elems(b)
  {
    assert forall x :: x in a <==> x in Elems(a);
    assert forall x :: x in b <==> x in Elems(b);
  }

  // -- What acceptance means ------------------------------------------------

  /** The place of a case: which relevant result observes it, and where. */
  predicate ObservedAt(used: seq<SuiteResult>, i: nat, k: nat, c: string) {
    i < |used| && k < |used[i].observed| && used[i].observed[k] == c
  }

  ghost predicate ObservedSomewhere(used: seq<SuiteResult>, c: string) {
    exists i: nat, k: nat :: ObservedAt(used, i, k, c)
  }

  /** The observed cases are an exact partition of the contract: each at one place, none extra. */
  lemma ShardsPartitionTheContract(shards: seq<Shard>, results: seq<SuiteResult>, contractCases: seq<string>)
    requires shards != [] && ShardsAccepted(shards, results, contractCases)
    ensures var used := Relevant(shards, results);
      && (forall c :: c in contractCases ==> ObservedSomewhere(used, c))
      && (forall c, i: nat, k: nat :: ObservedAt(used, i, k, c) ==> c in contractCases)
      && (forall c, i: nat, k: nat, i': nat, k': nat ::
            ObservedAt(used, i, k, c) && ObservedAt(used, i', k', c) ==> i == i' && k == k')
  {
    var used := Relevant(shards, results);
    var lists := ObservedLists(used);
    forall c | c in contractCases ensures ObservedSomewhere(used, c) {
      assert c in Flatten(lists);
      var i := FromFlatten(lists, c);
      var k: nat :| k < |used[i].observed| && used[i].observed[k] == c;
      assert ObservedAt(used, i, k, c);
    }
    forall c, i: nat, k: nat | ObservedAt(used, i, k, c) ensures c in contractCases {
      assert c in lists[i];
      InFlatten(lists, i, c);
    }
    forall c, i: nat, k: nat, i': nat, k': nat | ObservedAt(used, i, k, c) && ObservedAt(used, i', k', c)
      ensures i == i' && k == k'
    {
      assert c in lists[i] && c in lists[i'];
      OnlyOnePlace(lists, i, i', c);
    }
  }

  /** Some result of the shard observed exactly the shard's cases. */
  ghost predicate ObservesItsOwn(used: seq<SuiteResult>, s: Shard) {
    exists r :: r in used && Fits(r, s) && SameElements(r.observed, s.cases)
  }

  lemma SameTagSameResult(used: seq<SuiteResult>, r: SuiteResult, q: SuiteResult)
    requires NoRepeats(TagIds(used)) && r in used && q in used && TagId(r) == TagId(q)
    ensures r == q
  {
    var i :| 0 <= i < |used| && used[i] == r;
    var j :| 0 <= j < |used| && used[j] == q;
    assert TagIds(used)[i] == TagIds(used)[j];
  }

  /** Accepted: every shard has exactly one result with its name, its place and its number of places, and its selection. */
  lemma ShardHasItsResult(shards: seq<Shard>, results: seq<SuiteResult>, contractCases: seq<string>, s: Shard)
    returns (r: SuiteResult)
    requires ShardsAccepted(shards, results, contractCases) && s in shards
    ensures r in results && r.tag.Some? && r.selected == s.cases
    ensures r.tag.value.id == s.id && r.tag.value.index == s.index && r.tag.value.count == s.count
    ensures (if r.tag.value.suiteId == None then r.suiteId else r.tag.value.suiteId.value) == s.suiteId
    ensures forall q :: q in Relevant(shards, results) && q.tag.Some? && q.tag.value.id == s.id ==> q == r
  {
    var used := Relevant(shards, results);
    assert s.id in TagIds(used);
    var i :| 0 <= i < |used| && TagIds(used)[i] == s.id;
    r := used[i];
    assert FitsSome(shards, r);
    var t :| t in shards && Fits(r, t);
    SameIdSameShard(shards, s, t);
    RelevantIff(shards, results, r);
    forall q | q in used && q.tag.Some? && q.tag.value.id == s.id ensures q == r {
      SameTagSameResult(used, q, r);
    }
  }

  /** A result counts exactly when its suite is that of some shard. */
  lemma {:induction false} RelevantIff(shards: seq<Shard>, results: seq<SuiteResult>, r: SuiteResult)
    ensures r in Relevant(shards, results) <==> r in results && exists s :: s in shards && s.suiteId == r.suiteId
  {
    if results != [] {
      RelevantIff(shards, results[..|results| - 1], r);
      assert results == results[..|results| - 1] + [results[|results| - 1]];
    }
  }

  /** A case of two shards: the shards are the same. */
  lemma SameCaseSameShard(shards: seq<Shard>, s: Shard, t: Shard, c: string)
    requires NoRepeats(Flatten(CaseLists(shards))) && s in shards && t in shards && c in s.cases && c in t.cases
    ensures s == t
  {
    var i :| 0 <= i < |shards| && shards[i] == s;
    var j :| 0 <= j < |shards| && shards[j] == t;
    OnlyOnePlace(CaseLists(shards), i, j, c);
  }

  /** A case observed by two results: the results are the same. */
  lemma SameCaseSameResult(used: seq<SuiteResult>, r: SuiteResult, q: SuiteResult, c: string)
    requires NoRepeats(Flatten(ObservedLists(used))) && r in used && q in used && c in r.observed && c in q.observed
    ensures r == q
  {
    var i :| 0 <= i < |used| && used[i] == r;
    var j :| 0 <= j < |used| && used[j] == q;
    OnlyOnePlace(ObservedLists(used), i, j, c);
  }
}
