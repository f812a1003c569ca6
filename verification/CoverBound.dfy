/**
 How good the greedy retention is: against every family of scenarios that covers
 the same keys, it keeps at most H(d) times as many files, d the largest key set.
 The proof charges each pick to the potential sum of H(|uncovered keys of c|) over
 the rival family: every pick lowers it by at least one.
 */
module CoverBound {
  import opened Ordering
  import opened CorpusRetain

  /** Harmonic number 1 + 1/2 + ... + 1/n. */
  ghost function H(n: nat): (h: real)
    ensures h >= 0.0
  {
    if n == 0 then 0.0 else H(n - 1) + 1.0 / (n as real)
  }

  lemma {:induction false} HIsMonotone(m: nat, n: nat)
    requires m <= n
    ensures H(m) <= H(n)
  {
    if m < n { HIsMonotone(m, n - 1); }
  }

  /** Removing k of at most g uncovered keys frees at least k/g. */
  lemma {:induction false} HDrop(n: nat, k: nat, g: nat)
    requires k <= n <= g && g > 0
    ensures H(n) - H(n - k) >= k as real / g as real
  {
    if k > 0 {
      HDrop(n - 1, k - 1, g);
      Reciprocal(n, g);
      AddShares(k - 1, 1, g);
    }
  }

  lemma Reciprocal(n: nat, g: nat)
    requires 0 < n <= g
    ensures 1.0 / n as real >= 1.0 / g as real
  {
    assert 1.0 / n as real - 1.0 / g as real == (g - n) as real / (n as real * g as real);
  }

  lemma AddShares(a: nat, b: nat, g: nat)
    requires g > 0
    ensures (a + b) as real / g as real == a as real / g as real + b as real / g as real
  {}

  ghost function Times(x: real, n: nat): real {
    x * n as real
  }

  lemma TimesSucc(x: real, n: nat)
    ensures Times(x, n + 1) == Times(x, n) + x && Times(x, 0) == 0.0
  {}

  lemma FullShare(k: nat, g: nat)
    requires 0 < g <= k
    ensures k as real / g as real >= 1.0
  {}

  /** Key sets of a rival family, one per file. */
  type Family = seq<set<string>>

  ghost predicate Holds(rival: Family, k: string) {
    exists i :: 0 <= i < |rival| && k in rival[i]
  }

  /** What the rival family still has to cover. */
  ghost function Potential(rival: Family, covered: set<string>): (p: real)
    ensures p >= 0.0
  {
    if rival == [] then 0.0 else H(|rival[0] - covered|) + Potential(rival[1..], covered)
  }

  /** With multiplicity, how many of the keys `gain` the rival family holds. */
  ghost function Overlap(rival: Family, gain: set<string>): nat {
    if rival == [] then 0 else |rival[0] * gain| + Overlap(rival[1..], gain)
  }

  lemma SubsetSize<T>(a: set<T>, b: set<T>)
    requires a <= b
    ensures |a| <= |b|
  {
    assert b == a + (b - a);
  }

  lemma {:induction false} OverlapIsMonotone(rival: Family, small: set<string>, big: set<string>)
    requires small <= big
    ensures Overlap(rival, small) <= Overlap(rival, big)
  {
    if rival != [] {
      OverlapIsMonotone(rival[1..], small, big);
      SubsetSize(rival[0] * small, rival[0] * big);
    }
  }

  lemma {:induction false} OverlapCovers(rival: Family, gain: set<string>)
    requires forall k :: k in gain ==> Holds(rival, k)
    ensures Overlap(rival, gain) >= |gain|
  {
    if rival == [] {
      assert forall k :: k in gain ==> Holds(rival, k);
      assert gain == {};
    } else {
      var here := rival[0] * gain;
      var rest := gain - here;
      forall k | k in rest ensures Holds(rival[1..], k) {
        var i :| 0 <= i < |rival| && k in rival[i];
        assert rival[1..][i - 1] == rival[i];
      }
      OverlapCovers(rival[1..], rest);
      OverlapIsMonotone(rival[1..], rest, gain);
      assert gain == here + rest;
    }
  }

  /** Covering `gain`, where nobody has more than |gain| uncovered keys, lowers the potential by the overlap share. */
  lemma {:induction false} PotentialDrop(rival: Family, covered: set<string>, gain: set<string>)
    requires gain != {} && gain !! covered
    requires forall i :: 0 <= i < |rival| ==> |rival[i] - covered| <= |gain|
    ensures Potential(rival, covered) - Potential(rival, covered + gain)
         >= Overlap(rival, gain) as real / |gain| as real
  {
    if rival != [] {
      PotentialDrop(rival[1..], covered, gain);
      OneDrop(rival[0], covered, gain);
      AddShares(|rival[0] * gain|, Overlap(rival[1..], gain), |gain|);
    }
  }

  lemma OneDrop(keys: set<string>, covered: set<string>, gain: set<string>)
    requires gain != {} && gain !! covered && |keys - covered| <= |gain|
    ensures H(|keys - covered|) - H(|keys - (covered + gain)|) >= |keys * gain| as real / |gain| as real
  {
    var before, taken := keys - covered, keys * gain;
    assert before == (keys - (covered + gain)) + taken;
    HDrop(|before|, |taken|, |gain|);
  }

  ghost predicate Covers(rival: Family, cov: Coverage) {
    forall n, k :: n in cov && k in cov[n] ==> Holds(rival, k)
  }

  ghost predicate Within(rival: Family, cov: Coverage) {
    forall i :: 0 <= i < |rival| ==> exists n :: n in cov && cov[n] == rival[i]
  }

  /** Each greedy pick lowers the potential of any covering family by at least one. */
  lemma PickPaysOne(cov: Coverage, rival: Family, selected: seq<string>, i: nat)
    requires Greedy(cov, selected) && i < |selected|
    requires Within(rival, cov) && Covers(rival, cov)
    ensures Left(cov, rival, selected, i) >= Left(cov, rival, selected, i + 1) + 1.0
  {
    assert PickedBest(cov, selected, i);
    assert selected[i] in Elems(selected);
    var covered := Union(cov, selected[..i]);
    var gain := NewKeys(cov, selected[i], covered);
    assert selected[..i + 1] == selected[..i] + [selected[i]];
    ExtendUnion(cov, selected[..i], selected[i]);
    assert Union(cov, selected[..i + 1]) == covered + gain;
    forall j | 0 <= j < |rival| ensures |rival[j] - covered| <= |gain| {
      var n :| n in cov && cov[n] == rival[j];
      if n in selected[..i] {
        assert rival[j] - covered == {};
      } else {
        assert rival[j] - covered == NewKeys(cov, n, covered);
      }
    }
    PotentialDrop(rival, covered, gain);
    OverlapCovers(rival, gain);
    FullShare(Overlap(rival, gain), |gain|);
  }

  /** What the rival family still has to cover after i picks. */
  ghost function Left(cov: Coverage, rival: Family, selected: seq<string>, i: nat): real
    requires i <= |selected|
  {
    Potential(rival, Union(cov, selected[..i]))
  }

  /** Numbers that fall by at least one at each step. */
  lemma {:induction false} FallsByOne(left: seq<real>)
    requires left != [] && forall i :: 0 < i < |left| ==> left[i - 1] >= left[i] + 1.0
    ensures (|left| - 1) as real <= left[0] - left[|left| - 1]
  {
    if |left| > 1 {
      var init := left[..|left| - 1];
      assert init[0] == left[0] && init[|init| - 1] == left[|left| - 2];
      FallsByOne(init);
    }
  }

  lemma PicksPay(cov: Coverage, rival: Family, selected: seq<string>)
    requires Greedy(cov, selected)
    requires Within(rival, cov) && Covers(rival, cov)
    ensures |selected| as real <= Left(cov, rival, selected, 0) - Left(cov, rival, selected, |selected|)
  {
    var left := seq(|selected| + 1, i requires 0 <= i <= |selected| => Left(cov, rival, selected, i));
    forall i | 0 < i < |left| ensures left[i - 1] >= left[i] + 1.0 {
      PickPaysOne(cov, rival, selected, i - 1);
    }
    FallsByOne(left);
  }

  lemma NothingPicked(cov: Coverage, rival: Family, selected: seq<string>)
    ensures Left(cov, rival, selected, 0) == Potential(rival, {})
  {
    assert Union(cov, selected[..0]) == {};
  }

  lemma {:induction false} PotentialBound(rival: Family, d: nat)
    requires forall i :: 0 <= i < |rival| ==> |rival[i]| <= d
    ensures Potential(rival, {}) <= Times(H(d), |rival|)
  {
    if rival == [] {
      TimesSucc(H(d), 0);
    } else {
      PotentialBound(rival[1..], d);
      assert rival[0] - {} == rival[0];
      HIsMonotone(|rival[0]|, d);
      TimesSucc(H(d), |rival| - 1);
    }
  }

  ghost function KeySets(cov: Coverage, names: set<string>): (f: Family)
    requires names <= cov.Keys
    ensures |f| == |names|
    ensures Within(f, cov)
  {
    var listed := Sorted(names);
    assert forall i :: 0 <= i < |listed| ==> listed[i] in Elems(listed);
    seq(|listed|, i requires 0 <= i < |listed| => cov[listed[i]])
  }

  /** The approximation guarantee of the retained corpus. */
  lemma GreedyIsNearlyOptimal(cov: Coverage, selected: seq<string>, rival: set<string>, d: nat)
    requires Greedy(cov, selected)
    requires rival <= cov.Keys && forall n :: n in cov ==> cov[n] <= Union(cov, Sorted(rival))
    requires forall n :: n in cov ==> |cov[n]| <= d
    ensures |selected| as real <= Times(H(d), |rival|)
  {
    CoveringFamily(cov, rival);
    PicksPay(cov, KeySets(cov, rival), selected);
    NothingPicked(cov, KeySets(cov, rival), selected);
    PotentialBound(KeySets(cov, rival), d);
  }

  lemma CoveringFamily(cov: Coverage, rival: set<string>)
    requires rival <= cov.Keys && forall n :: n in cov ==> cov[n] <= Union(cov, Sorted(rival))
    ensures Covers(KeySets(cov, rival), cov)
  {
    var listed := Sorted(rival);
    forall n, k | n in cov && k in cov[n] ensures Holds(KeySets(cov, rival), k) {
      assert k in Union(cov, listed);
      var m :| m in listed && m in cov && k in cov[m];
      var i :| 0 <= i < |listed| && listed[i] == m;
      assert KeySets(cov, rival)[i] == cov[m];
    }
  }
}
