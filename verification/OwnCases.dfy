/** When accepted evidence means that every shard observed exactly its own cases. */
module OwnCases {
  import opened Text
  import opened Ordering
  import opened ReleaseSuite
  import opened ReleaseEvidence
  import opened ShardCoverage
  import opened ReleaseContract

  function Used(c: Contract, subs: seq<Submission>): seq<SuiteResult> {
    Relevant(c.shards, ResultsOf(subs))
  }

  ghost predicate RanOwn(c: Contract, subs: seq<Submission>) {
    forall s :: s in c.shards ==> ObservesItsOwn(Used(c, subs), s)
  }

  /** Selections are compared, and the suite of some shard lists exactly these cases. */
  predicate Listed(c: Contract, s: Shard) {
    && c.selectedRequired && s.cases != []
    && exists u :: u in c.shards && u.suiteId in c.suites && c.suites[u.suiteId] == s.cases
  }

  /** Any two unlisted shards have no cases at all. */
  predicate Tight(c: Contract) {
    forall s, t :: s in c.shards && t in c.shards && s.id != t.id && !Listed(c, s) && !Listed(c, t) ==>
      s.cases == [] && t.cases == []
  }

  // -- Results and their submissions ----------------------------------------

  lemma RelevantIsSome(shards: seq<Shard>, results: seq<SuiteResult>, r: SuiteResult)
    requires r in Relevant(shards, results)
    ensures r in results && ForShards(shards, r)
  {
    RelevantIff(shards, results, r);
  }

  lemma Submitted(c: Contract, subs: seq<Submission>, r: SuiteResult) returns (sub: Submission)
    requires r in Used(c, subs)
    ensures sub in subs && ResultOf(sub) == r && ForShards(c.shards, r)
  {
    RelevantIsSome(c.shards, ResultsOf(subs), r);
    var i :| 0 <= i < |subs| && ResultsOf(subs)[i] == r;
    sub := subs[i];
  }

  lemma SameSuiteSameResult(c: Contract, subs: seq<Submission>, r: SuiteResult, q: SuiteResult)
    requires NoRepeats(SuiteIds(subs)) && r in Used(c, subs) && q in Used(c, subs) && r.suiteId == q.suiteId
    ensures r == q
  {
    RelevantIsSome(c.shards, ResultsOf(subs), r);
    RelevantIsSome(c.shards, ResultsOf(subs), q);
    var i :| 0 <= i < |subs| && ResultsOf(subs)[i] == r;
    var j :| 0 <= j < |subs| && ResultsOf(subs)[j] == q;
    assert SuiteIds(subs)[i] == SuiteIds(subs)[j];
  }

  lemma AnswerOf(c: Contract, subs: seq<Submission>, s: Shard) returns (r: SuiteResult)
    requires EvidenceAccepted(c, subs) && s in c.shards
    ensures r in Used(c, subs) && Fits(r, s)
  {
    var used := Used(c, subs);
    assert s.id in TagIds(used);
    var i :| 0 <= i < |used| && TagIds(used)[i] == s.id;
    r := used[i];
    assert FitsSome(c.shards, r);
    var t :| t in c.shards && Fits(r, t);
    SameIdSameShard(c.shards, s, t);
  }

  lemma ShardOf(c: Contract, subs: seq<Submission>, r: SuiteResult) returns (s: Shard)
    requires EvidenceAccepted(c, subs) && r in Used(c, subs)
    ensures s in c.shards && Fits(r, s)
  {
    RelevantIsSome(c.shards, ResultsOf(subs), r);
    assert FitsSome(c.shards, r);
    s :| s in c.shards && Fits(r, s);
  }

  // -- Every suite of a shard has its result --------------------------------

  lemma {:induction false} SizeAtMost(s: seq<string>)
    ensures |Elems(s)| <= |s|
    ensures NoRepeats(s) ==> |Elems(s)| == |s|
  {
    if s == [] {
      assert Elems(s) == {};
    } else {
      var init, last := s[..|s| - 1], s[|s| - 1];
      SizeAtMost(init);
      assert s == init + [last];
      assert Elems(s) == Elems(init) + {last};
      NoRepeatsConcat(init, [last]);
    }
  }

  function SuitesOf(shards: seq<Shard>): (r: seq<string>)
    ensures |r| == |shards| && forall i :: 0 <= i < |shards| ==> r[i] == shards[i].suiteId
  {
    seq(|shards|, i requires 0 <= i < |shards| => shards[i].suiteId)
  }

  function ResultSuites(used: seq<SuiteResult>): (r: seq<string>)
    ensures |r| == |used| && forall i :: 0 <= i < |used| ==> r[i] == used[i].suiteId
  {
    seq(|used|, i requires 0 <= i < |used| => used[i].suiteId)
  }

  /** The results bear exactly the ids of the shards, so they are as many. */
  lemma AsManyAsShards(c: Contract, subs: seq<Submission>)
    requires EvidenceAccepted(c, subs) && c.shards != []
    ensures |Used(c, subs)| == |c.shards|
  {
    var used := Used(c, subs);
    var tags, ids := TagIds(used), ShardIds(c.shards);
    forall x ensures x in tags <==> x in ids {
      if x in tags {
        var i :| 0 <= i < |used| && tags[i] == x;
        var s := ShardOf(c, subs, used[i]);
        var k :| 0 <= k < |c.shards| && c.shards[k] == s;
        assert ids[k] == x;
      }
      if x in ids {
        var k :| 0 <= k < |c.shards| && ids[k] == x;
        assert c.shards[k].id in tags;
      }
    }
    assert Elems(tags) == Elems(ids);
    SizeAtMost(tags);
    SizeAtMost(ids);
  }

  lemma OneResultPerSuite(c: Contract, subs: seq<Submission>)
    requires EvidenceAccepted(c, subs) && c.shards != []
    ensures NoRepeats(ResultSuites(Used(c, subs)))
  {
    var used := Used(c, subs);
    forall i, j | 0 <= i < j < |used| ensures ResultSuites(used)[i] != ResultSuites(used)[j] {
      assert TagIds(used)[i] != TagIds(used)[j];
      if used[i].suiteId == used[j].suiteId {
        SameSuiteSameResult(c, subs, used[i], used[j]);
      }
    }
  }

  lemma SubsetOfSameSize(a: set<string>, b: set<string>)
    requires a <= b && |b| <= |a|
    ensures a == b
  {
    var rest := b - a;
    assert b == a + rest && |b| == |a| + |rest|;
  }

  lemma SuiteIsKnown(shards: seq<Shard>, s: Shard)
    requires s in shards
    ensures s.suiteId in Elems(SuitesOf(shards))
  {
    var k :| 0 <= k < |shards| && shards[k] == s;
    assert SuitesOf(shards)[k] == s.suiteId;
  }

  lemma SuitesAreKnown(c: Contract, subs: seq<Submission>, have: seq<string>, want: seq<string>)
    requires have == ResultSuites(Used(c, subs)) && want == SuitesOf(c.shards)
    ensures Elems(have) <= Elems(want)
  {
    var used := Used(c, subs);
    forall x | x in Elems(have) ensures x in Elems(want) {
      var i :| 0 <= i < |used| && have[i] == x;
      RelevantIsSome(c.shards, ResultsOf(subs), used[i]);
      var s :| s in c.shards && s.suiteId == x;
      SuiteIsKnown(c.shards, s);
    }
  }

  /** As many results as shards, from different suites of shards: no such suite is without a result. */
  lemma EverySuiteAnswers(c: Contract, subs: seq<Submission>, u: Shard) returns (r: SuiteResult)
    requires EvidenceAccepted(c, subs) && u in c.shards
    ensures r in Used(c, subs) && r.suiteId == u.suiteId
  {
    var used := Used(c, subs);
    var have, want := ResultSuites(used), SuitesOf(c.shards);
    AsManyAsShards(c, subs);
    OneResultPerSuite(c, subs);
    SizeAtMost(have);
    SizeAtMost(want);
    SuitesAreKnown(c, subs, have, want);
    SubsetOfSameSize(Elems(have), Elems(want));
    SuiteIsKnown(c.shards, u);
    assert u.suiteId in Elems(have);
    var i :| 0 <= i < |used| && have[i] == u.suiteId;
    r := used[i];
  }

  // -- Listed shards --------------------------------------------------------

  /** A result whose suite lists cases observed exactly what it selected: no swap gets past its own checks. */
  lemma ListedSuiteObservesItsSelection(c: Contract, subs: seq<Submission>, sub: Submission)
    requires EvidenceAccepted(c, subs) && sub in subs && c.selectedRequired
    requires sub.suiteId in c.suites && c.suites[sub.suiteId] != []
    ensures sub.record.selected == c.suites[sub.suiteId]
    ensures SameElements(ResultOf(sub).observed, ResultOf(sub).selected)
  {
    assert Checked(c, sub);
  }

  /** In every accepted evidence a listed shard observed exactly its own cases. */
  lemma ListedShardRanItsOwn(c: Contract, subs: seq<Submission>, s: Shard)
    requires EvidenceAccepted(c, subs) && s in c.shards && Listed(c, s)
    ensures ObservesItsOwn(Used(c, subs), s)
  {
    var u :| u in c.shards && u.suiteId in c.suites && c.suites[u.suiteId] == s.cases;
    var r := EverySuiteAnswers(c, subs, u);
    var sub := Submitted(c, subs, r);
    ListedSuiteObservesItsSelection(c, subs, sub);
    var t := ShardOf(c, subs, r);
    SameCaseSameShard(c.shards, s, t, s.cases[0]);
  }

  /** The result of an unlisted shard comes from a suite without required cases, where selections are compared. */
  lemma UnlistedAnswer(c: Contract, subs: seq<Submission>, s: Shard, sub: Submission)
    requires EvidenceAccepted(c, subs) && s in c.shards && !Listed(c, s)
    requires sub in subs && ResultOf(sub) in Used(c, subs) && Fits(ResultOf(sub), s)
    ensures sub.suiteId in c.suites && (c.selectedRequired ==> c.suites[sub.suiteId] == [])
  {
    assert Checked(c, sub);
    RelevantIsSome(c.shards, ResultsOf(subs), ResultOf(sub));
    var u :| u in c.shards && u.suiteId == sub.suiteId;
  }

  // -- A tight contract guarantees it ---------------------------------------

  lemma UnlistedRanItsOwn(c: Contract, subs: seq<Submission>, s: Shard)
    requires EvidenceAccepted(c, subs) && Tight(c) && s in c.shards && !Listed(c, s)
    ensures ObservesItsOwn(Used(c, subs), s)
  {
    var used := Used(c, subs);
    var r := AnswerOf(c, subs, s);
    forall x | x in s.cases ensures x in r.observed {
      var k :| 0 <= k < |c.shards| && c.shards[k] == s;
      InFlatten(CaseLists(c.shards), k, x);
      assert x in Flatten(ObservedLists(used));
      var i := FromFlatten(ObservedLists(used), x);
      var t := ShardOf(c, subs, used[i]);
      OwnObserver(c, subs, s, r, t, used[i], x);
    }
    forall x | x in r.observed ensures x in s.cases {
      var i :| 0 <= i < |used| && used[i] == r;
      InFlatten(ObservedLists(used), i, x);
      assert x in Flatten(CaseLists(c.shards));
      var k := FromFlatten(CaseLists(c.shards), x);
      OwnCase(c, subs, s, r, c.shards[k], x);
    }
  }

  /** Whoever observed a case of the unlisted shard s is the result of s. */
  lemma OwnObserver(c: Contract, subs: seq<Submission>, s: Shard, r: SuiteResult, t: Shard, q: SuiteResult, x: string)
    requires EvidenceAccepted(c, subs) && Tight(c) && s in c.shards && !Listed(c, s) && t in c.shards
    requires r in Used(c, subs) && Fits(r, s) && q in Used(c, subs) && Fits(q, t) && x in q.observed && x in s.cases
    ensures x in r.observed
  {
    if t.id == s.id {
      SameTagSameResult(Used(c, subs), r, q);
    } else {
      assert Listed(c, t);
      ListedShardRanItsOwn(c, subs, t);
      var p :| p in Used(c, subs) && Fits(p, t) && SameElements(p.observed, t.cases);
      SameTagSameResult(Used(c, subs), p, q);
      SameCaseSameShard(c.shards, s, t, x);
    }
  }

  /** What the result of the unlisted shard s observed is a case of s. */
  lemma OwnCase(c: Contract, subs: seq<Submission>, s: Shard, r: SuiteResult, t: Shard, x: string)
    requires EvidenceAccepted(c, subs) && Tight(c) && s in c.shards && !Listed(c, s) && t in c.shards
    requires r in Used(c, subs) && Fits(r, s) && x in r.observed && x in t.cases
    ensures x in s.cases
  {
    if t.id == s.id {
      SameIdSameShard(c.shards, s, t);
    } else {
      assert Listed(c, t);
      ListedShardRanItsOwn(c, subs, t);
      var p :| p in Used(c, subs) && Fits(p, t) && SameElements(p.observed, t.cases);
      SameCaseSameResult(Used(c, subs), r, p, x);
    }
  }

  lemma TightMeansOwn(c: Contract, subs: seq<Submission>)
    requires EvidenceAccepted(c, subs) && Tight(c)
    ensures RanOwn(c, subs)
  {
    forall s | s in c.shards ensures ObservesItsOwn(Used(c, subs), s) {
      if Listed(c, s) {
        ListedShardRanItsOwn(c, subs, s);
      } else {
        UnlistedRanItsOwn(c, subs, s);
      }
    }
  }

  // -- Any other contract does not ------------------------------------------

  /** The same result, presented as the result of shard s. */
  function Retag(sub: Submission, s: Shard): Submission {
    sub.(tag := Some(ShardTag(s.id, Some(s.suiteId), s.index, s.count)), record := sub.record.(selected := s.cases))
  }

  function RetagResult(r: SuiteResult, s: Shard): SuiteResult {
    r.(tag := Some(ShardTag(s.id, Some(s.suiteId), s.index, s.count)), selected := s.cases)
  }

  /** The results of suites a and b change places: a now answers for t and b for s. */
  datatype Swap = Swap(a: string, b: string, s: Shard, t: Shard)

  function SwapResult(w: Swap, r: SuiteResult): SuiteResult {
    if r.suiteId == w.a then RetagResult(r, w.t) else if r.suiteId == w.b then RetagResult(r, w.s) else r
  }

  function SwapResults(w: Swap, rs: seq<SuiteResult>): (r: seq<SuiteResult>)
    ensures |r| == |rs| && forall i :: 0 <= i < |rs| ==> r[i] == SwapResult(w, rs[i])
  {
    seq(|rs|, i requires 0 <= i < |rs| => SwapResult(w, rs[i]))
  }

  function SwapSub(w: Swap, sub: Submission): Submission {
    if sub.suiteId == w.a then Retag(sub, w.t) else if sub.suiteId == w.b then Retag(sub, w.s) else sub
  }

  function SwapSubs(w: Swap, subs: seq<Submission>): (r: seq<Submission>)
    ensures |r| == |subs| && forall i :: 0 <= i < |subs| ==> r[i] == SwapSub(w, subs[i])
  {
    seq(|subs|, i requires 0 <= i < |subs| => SwapSub(w, subs[i]))
  }

  lemma {:induction false} RelevantSwaps(w: Swap, shards: seq<Shard>, rs: seq<SuiteResult>)
    ensures Relevant(shards, SwapResults(w, rs)) == SwapResults(w, Relevant(shards, rs))
  {
    if rs == [] {
      assert SwapResults(w, rs) == [];
    } else {
      var init, last := rs[..|rs| - 1], rs[|rs| - 1];
      RelevantSwaps(w, shards, init);
      var swapped := SwapResults(w, rs);
      assert swapped[..|swapped| - 1] == SwapResults(w, init) && swapped[|swapped| - 1] == SwapResult(w, last);
    }
  }

  lemma UsedSwaps(w: Swap, c: Contract, subs: seq<Submission>)
    ensures Used(c, SwapSubs(w, subs)) == SwapResults(w, Used(c, subs))
  {
    assert ResultsOf(SwapSubs(w, subs)) == SwapResults(w, ResultsOf(subs));
    RelevantSwaps(w, c.shards, ResultsOf(subs));
  }

  /** Two different shards, and the suites whose results answer for them. */
  ghost predicate Pair(c: Contract, subs: seq<Submission>, w: Swap, r: SuiteResult, q: SuiteResult) {
    && EvidenceAccepted(c, subs) && w.s in c.shards && w.t in c.shards && w.s.id != w.t.id
    && r in Used(c, subs) && Fits(r, w.s) && r.suiteId == w.a
    && q in Used(c, subs) && Fits(q, w.t) && q.suiteId == w.b
  }

  /** A swap exchanges the two tags and leaves every other. */
  lemma SwappedTag(c: Contract, subs: seq<Submission>, w: Swap, r: SuiteResult, q: SuiteResult, x: SuiteResult)
    requires Pair(c, subs, w, r, q) && x in Used(c, subs)
    ensures TagId(SwapResult(w, x)) ==
      if TagId(x) == w.s.id then w.t.id else if TagId(x) == w.t.id then w.s.id else TagId(x)
    ensures FitsSome(c.shards, SwapResult(w, x))
    ensures Fits(SwapResult(w, x), w.s) ==> x == q
  {
    var used := Used(c, subs);
    if x.suiteId == w.a {
      SameSuiteSameResult(c, subs, x, r);
      assert Fits(SwapResult(w, x), w.t);
    } else if x.suiteId == w.b {
      SameSuiteSameResult(c, subs, x, q);
      assert Fits(SwapResult(w, x), w.s);
    } else {
      if TagId(x) == w.s.id { SameTagSameResult(used, x, r); }
      if TagId(x) == w.t.id { SameTagSameResult(used, x, q); }
      var s := ShardOf(c, subs, x);
    }
  }

  lemma SwappedTagsAreDistinct(c: Contract, subs: seq<Submission>, w: Swap, r: SuiteResult, q: SuiteResult)
    requires Pair(c, subs, w, r, q)
    ensures NoRepeats(TagIds(SwapResults(w, Used(c, subs))))
  {
    var used := Used(c, subs);
    var tags := TagIds(SwapResults(w, used));
    forall i, j | 0 <= i < j < |used| ensures tags[i] != tags[j] {
      SwappedTag(c, subs, w, r, q, used[i]);
      SwappedTag(c, subs, w, r, q, used[j]);
      assert TagIds(used)[i] != TagIds(used)[j];
    }
  }

  lemma SwappedTagsAreAll(c: Contract, subs: seq<Submission>, w: Swap, r: SuiteResult, q: SuiteResult, s: Shard)
    requires Pair(c, subs, w, r, q) && s in c.shards
    ensures s.id in TagIds(SwapResults(w, Used(c, subs)))
  {
    var used := Used(c, subs);
    var x := AnswerOf(c, subs, s);
    if s.id == w.s.id {
      x := q;
    } else if s.id == w.t.id {
      x := r;
    }
    SwappedTag(c, subs, w, r, q, x);
    var i :| 0 <= i < |used| && used[i] == x;
    assert TagIds(SwapResults(w, used))[i] == s.id;
  }

  lemma SwappedFit(c: Contract, subs: seq<Submission>, w: Swap, r: SuiteResult, q: SuiteResult)
    requires Pair(c, subs, w, r, q)
    ensures forall x :: x in SwapResults(w, Used(c, subs)) ==> FitsSome(c.shards, x)
  {
    var used := Used(c, subs);
    var swapped := SwapResults(w, used);
    forall x | x in swapped ensures FitsSome(c.shards, x) {
      var i :| 0 <= i < |swapped| && swapped[i] == x;
      SwappedTag(c, subs, w, r, q, used[i]);
    }
  }

  lemma SwappedShardsAccepted(c: Contract, subs: seq<Submission>, w: Swap, r: SuiteResult, q: SuiteResult)
    requires Pair(c, subs, w, r, q)
    ensures ShardsAccepted(c.shards, ResultsOf(SwapSubs(w, subs)), c.cases)
  {
    var used := Used(c, subs);
    var swapped := SwapResults(w, used);
    UsedSwaps(w, c, subs);
    assert ObservedLists(swapped) == ObservedLists(used);
    SwappedTagsAreDistinct(c, subs, w, r, q);
    SwappedFit(c, subs, w, r, q);
    forall s | s in c.shards ensures s.id in TagIds(swapped) {
      SwappedTagsAreAll(c, subs, w, r, q, s);
    }
  }

  /** Where its suite lists no cases, or selections are not compared, a result passes its checks under any tag. */
  lemma RetagKeepsChecks(c: Contract, sub: Submission, s: Shard)
    requires Checked(c, sub) && (c.selectedRequired ==> c.suites[sub.suiteId] == [])
    ensures Checked(c, Retag(sub, s))
  {}

  lemma SwapKeepsChecks(c: Contract, subs: seq<Submission>, w: Swap)
    requires AllChecked(c, subs) && w.a in c.suites && w.b in c.suites
    requires c.selectedRequired ==> c.suites[w.a] == [] && c.suites[w.b] == []
    ensures AllChecked(c, SwapSubs(w, subs))
  {
    var swapped := SwapSubs(w, subs);
    assert SuiteIds(swapped) == SuiteIds(subs);
    forall sub | sub in swapped ensures Checked(c, sub) {
      var i :| 0 <= i < |subs| && swapped[i] == sub;
      if subs[i].suiteId == w.a {
        RetagKeepsChecks(c, subs[i], w.t);
      } else if subs[i].suiteId == w.b {
        RetagKeepsChecks(c, subs[i], w.s);
      }
    }
  }

  lemma UnlistedSuite(c: Contract, subs: seq<Submission>, s: Shard, r: SuiteResult)
    requires EvidenceAccepted(c, subs) && s in c.shards && !Listed(c, s) && r in Used(c, subs) && Fits(r, s)
    ensures r.suiteId in c.suites && (c.selectedRequired ==> c.suites[r.suiteId] == [])
  {
    var sub := Submitted(c, subs, r);
    UnlistedAnswer(c, subs, s, sub);
  }

  /** The results of two unlisted shards can change places, and everything is accepted as before. */
  lemma UnlistedShardsCanSwap(c: Contract, subs: seq<Submission>, w: Swap, r: SuiteResult, q: SuiteResult)
    requires Pair(c, subs, w, r, q) && !Listed(c, w.s) && !Listed(c, w.t)
    ensures EvidenceAccepted(c, SwapSubs(w, subs))
  {
    UnlistedSuite(c, subs, w.s, r);
    UnlistedSuite(c, subs, w.t, q);
    SwapKeepsChecks(c, subs, w);
    SwappedShardsAccepted(c, subs, w, r, q);
  }

  lemma OwnResult(c: Contract, subs: seq<Submission>, t: Shard, q: SuiteResult)
    requires EvidenceAccepted(c, subs) && ObservesItsOwn(Used(c, subs), t) && q in Used(c, subs) && Fits(q, t) && t in c.shards
    ensures SameElements(q.observed, t.cases)
  {
    var used := Used(c, subs);
    var p :| p in used && Fits(p, t) && SameElements(p.observed, t.cases);
    SameTagSameResult(used, p, q);
  }

  /** After the swap the shards observed each other's cases. */
  lemma SwapIsSeen(c: Contract, subs: seq<Submission>, w: Swap, r: SuiteResult, q: SuiteResult)
    requires Pair(c, subs, w, r, q) && !(w.s.cases == [] && w.t.cases == [])
    requires ObservesItsOwn(Used(c, subs), w.t)
    ensures !ObservesItsOwn(Used(c, SwapSubs(w, subs)), w.s)
  {
    UsedSwaps(w, c, subs);
    OwnResult(c, subs, w.t, q);
    CasesDiffer(c, w.s, w.t, q.observed);
    var swapped := SwapResults(w, Used(c, subs));
    forall x | x in swapped && Fits(x, w.s) ensures !SameElements(x.observed, w.s.cases) {
      ObservedByTheOther(c, subs, w, r, q, x);
    }
  }

  lemma ObservedByTheOther(c: Contract, subs: seq<Submission>, w: Swap, r: SuiteResult, q: SuiteResult, x: SuiteResult)
    requires Pair(c, subs, w, r, q) && x in SwapResults(w, Used(c, subs)) && Fits(x, w.s)
    ensures x.observed == q.observed
  {
    var used := Used(c, subs);
    var i :| 0 <= i < |used| && SwapResults(w, used)[i] == x;
    SwappedTag(c, subs, w, r, q, used[i]);
  }

  lemma CasesDiffer(c: Contract, s: Shard, t: Shard, seen: seq<string>)
    requires NoRepeats(Flatten(CaseLists(c.shards))) && s in c.shards && t in c.shards && s.id != t.id
    requires !(s.cases == [] && t.cases == []) && SameElements(seen, t.cases)
    ensures !SameElements(seen, s.cases)
  {
    if s.cases != [] {
      if s.cases[0] in t.cases { SameCaseSameShard(c.shards, s, t, s.cases[0]); }
    } else {
      assert t.cases[0] in seen;
    }
  }

  /**
   For every contract that can be met at all: its acceptance guarantees that every
   shard observed exactly its own cases if and only if the contract is tight.
   */
  lemma OwnCasesGuaranteedIff(c: Contract, subs: seq<Submission>)
    requires EvidenceAccepted(c, subs)
    ensures (forall other :: EvidenceAccepted(c, other) ==> RanOwn(c, other)) <==> Tight(c)
  {
    if Tight(c) {
      forall other | EvidenceAccepted(c, other) ensures RanOwn(c, other) {
        TightMeansOwn(c, other);
      }
    } else {
      LooseMeansForeign(c, subs);
    }
  }

  lemma LooseMeansForeign(c: Contract, subs: seq<Submission>)
    requires EvidenceAccepted(c, subs) && !Tight(c)
    ensures exists other :: EvidenceAccepted(c, other) && !RanOwn(c, other)
  {
    var s, t :| s in c.shards && t in c.shards && s.id != t.id && !Listed(c, s) && !Listed(c, t) &&
      !(s.cases == [] && t.cases == []);
    var r := AnswerOf(c, subs, s);
    var q := AnswerOf(c, subs, t);
    var w := Swap(r.suiteId, q.suiteId, s, t);
    if RanOwn(c, subs) {
      UnlistedShardsCanSwap(c, subs, w, r, q);
      SwapIsSeen(c, subs, w, r, q);
      assert !RanOwn(c, SwapSubs(w, subs));
    }
  }

  // -- A contract that is not tight -----------------------------------------

  /** Two suites without required cases, each with a shard of one case. */
  function TwoShards(a: string, b: string, x: string, y: string): Contract {
    Contract(map[a := [], b := []], true, true, [Shard(a, a, 1, 2, [x]), Shard(b, b, 2, 2, [y])], [x, y])
  }

  /** A passed result of shard i out of two that selected one case and observed another. */
  function ResultFor(suite: string, i: int, selected: string, observed: string): Submission {
    Submission(suite, Some(ShardTag(suite, None, i, 2)),
               Record(Passed, [selected], [Case(observed, Passed)], [Attempt(1, Passed, [])], 0), [])
  }

  function CrossedResults(a: string, b: string, x: string, y: string): seq<Submission> {
    [ResultFor(a, 1, x, y), ResultFor(b, 2, y, x)]
  }

  lemma FlattenPair(p: string, q: string)
    ensures Flatten([[p], [q]]) == [p, q]
  {
    assert [] + [[p]] == [[p]] && [[p]] + [[q]] == [[p], [q]];
    FlattenAppend([], [p]);
    FlattenAppend([[p]], [q]);
  }

  lemma BothRelevant(shards: seq<Shard>, r: SuiteResult, q: SuiteResult)
    requires ForShards(shards, r) && ForShards(shards, q)
    ensures Relevant(shards, [r, q]) == [r, q]
  {
    var results := [r, q];
    RelevantStep(shards, results, 0);
    RelevantStep(shards, results, 1);
    assert results[..2] == results && results[..0] == [];
    assert [] + [r] + [q] == [r, q];
  }

  lemma CrossedAreChecked(a: string, b: string, x: string, y: string)
    requires a != b
    ensures AllChecked(TwoShards(a, b, x, y), CrossedResults(a, b, x, y))
  {
    var subs := CrossedResults(a, b, x, y);
    assert SuiteIds(subs) == [a, b];
    forall sub | sub in subs ensures Checked(TwoShards(a, b, x, y), sub) {
      var none: seq<Case> := [];
      assert sub.record.attempts[0].cases == none && Passing(none);
      assert AttemptAccepted(sub.record, sub.record.attempts[0], []);
    }
  }

  lemma CrossedUsed(a: string, b: string, x: string, y: string)
    ensures var c := TwoShards(a, b, x, y);
      Used(c, CrossedResults(a, b, x, y)) ==
        [SuiteResult(a, Some(ShardTag(a, None, 1, 2)), [x], [y]), SuiteResult(b, Some(ShardTag(b, None, 2, 2)), [y], [x])]
  {
    var c, subs := TwoShards(a, b, x, y), CrossedResults(a, b, x, y);
    var r, q := ResultOf(subs[0]), ResultOf(subs[1]);
    assert c.shards[0] in c.shards && c.shards[1] in c.shards;
    assert ResultsOf(subs) == [r, q];
    BothRelevant(c.shards, r, q);
    assert Ids(subs[0].record.observed) == [y] && Ids(subs[1].record.observed) == [x];
  }

  lemma CrossedFit(a: string, b: string, x: string, y: string)
    requires a != b && x != y
    ensures var c := TwoShards(a, b, x, y); ShardsAccepted(c.shards, ResultsOf(CrossedResults(a, b, x, y)), c.cases)
  {
    var c := TwoShards(a, b, x, y);
    var used := Used(c, CrossedResults(a, b, x, y));
    CrossedUsed(a, b, x, y);
    FlattenPair(x, y);
    FlattenPair(y, x);
    assert ShardIds(c.shards) == [a, b] && CaseLists(c.shards) == [[x], [y]];
    assert TagIds(used) == [a, b] && ObservedLists(used) == [[y], [x]];
    assert c.shards[0] in c.shards && Fits(used[0], c.shards[0]) && c.shards[1] in c.shards && Fits(used[1], c.shards[1]);
  }

  lemma CrossedIsForeign(a: string, b: string, x: string, y: string)
    requires a != b && x != y
    ensures var c := TwoShards(a, b, x, y); !ObservesItsOwn(Used(c, CrossedResults(a, b, x, y)), c.shards[0])
  {
    var c := TwoShards(a, b, x, y);
    var used := Used(c, CrossedResults(a, b, x, y));
    CrossedUsed(a, b, x, y);
    forall r | r in used && Fits(r, c.shards[0]) ensures !SameElements(r.observed, [x]) {
      assert y in r.observed && y !in [x];
    }
  }

  /** Such a contract is met, and by results that observed each other's case. */
  lemma CrossedResultsAreAccepted(a: string, b: string, x: string, y: string)
    requires a != b && x != y
    ensures var c, subs := TwoShards(a, b, x, y), CrossedResults(a, b, x, y);
      EvidenceAccepted(c, subs) && !RanOwn(c, subs) && !Tight(c)
  {
    var c, subs := TwoShards(a, b, x, y), CrossedResults(a, b, x, y);
    CrossedAreChecked(a, b, x, y);
    CrossedFit(a, b, x, y);
    CrossedIsForeign(a, b, x, y);
    assert c.shards[0] in c.shards;
    if Tight(c) {
      TightMeansOwn(c, subs);
    }
  }
}
