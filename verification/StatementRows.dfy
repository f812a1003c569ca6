/** What shrinking does to the rows of an initial statement, and for which statements it only removes rows. */
module StatementRows {
  import opened Text
  import opened InsertValues
  import opened InsertRoundTrip
  import opened InsertText
  import opened DvmShrink

  // -- Rows kept and dropped ------------------------------------------------

  /** Some of the tuples taken out of their places. */
  predicate Thinned(us: seq<string>, ts: seq<string>) {
    |us| == |ts| && forall i :: 0 <= i < |ts| ==> us[i] == ts[i] || us[i] == ""
  }

  function Kept(us: seq<string>): seq<string> {
    if us == [] then [] else (if us[0] == "" then [] else [us[0]]) + Kept(us[1..])
  }

  lemma {:induction false} BareKept(us: seq<string>)
    ensures BareAll(Kept(us)) == BareAll(us)
  {
    if us != [] {
      BareKept(us[1..]);
      var more := Kept(us[1..]);
      assert [] + more == more && ([us[0]] + more)[1..] == more;
      assert Bare("") + BareAll(us[1..]) == BareAll(us[1..]);
    }
  }

  lemma {:induction false} KeptOfAll(ts: seq<string>)
    requires forall t :: t in ts ==> t != ""
    ensures Kept(ts) == ts
  {
    if ts != [] {
      assert ts == [ts[0]] + ts[1..] && ts[0] in ts;
      assert forall t :: t in ts[1..] ==> t in ts;
      KeptOfAll(ts[1..]);
    }
  }

  lemma KeptStep(us: seq<string>, j: nat)
    requires us != [] && j < |us[1..]|
    ensures us[j + 1 := ""][1..] == us[1..][j := ""] && us[j + 1 := ""][0] == us[0]
  {}

  lemma WithoutStep<T>(x: T, more: seq<T>, k: nat)
    requires k < |more|
    ensures Without([x] + more, k + 1) == [x] + Without(more, k)
  {}

  /** Dropping the k-th kept text empties one place. */
  lemma {:induction false} KeptDrop(us: seq<string>, k: nat) returns (j: nat)
    requires k < |Kept(us)|
    ensures j < |us| && us[j] == Kept(us)[k] && Kept(us[j := ""]) == Without(Kept(us), k)
  {
    var more := Kept(us[1..]);
    if us[0] == "" {
      assert Kept(us) == more;
      j := KeptDrop(us[1..], k);
      KeptStep(us, j);
      j := j + 1;
    } else if k == 0 {
      j := 0;
      assert us[0 := ""][1..] == us[1..] && Without(Kept(us), 0) == more;
    } else {
      j := KeptDrop(us[1..], k - 1);
      KeptStep(us, j);
      WithoutStep(us[0], more, k - 1);
      j := j + 1;
    }
  }

  /** The last kept text stands at some place, and not at the first one when there are more. */
  lemma {:induction false} LastKept(us: seq<string>) returns (k: nat)
    requires Kept(us) != []
    ensures k < |us| && us[k] != "" && us[k] == Kept(us)[|Kept(us)| - 1] && (|Kept(us)| > 1 ==> k > 0)
  {
    if Kept(us[1..]) == [] {
      k := 0;
    } else {
      k := LastKept(us[1..]);
      k := k + 1;
    }
  }

  lemma {:induction false} KeptElements(us: seq<string>, x: string)
    requires x in Kept(us)
    ensures x != "" && x in us
  {
    if us[0] == "" || x != us[0] {
      assert x in Kept(us[1..]);
      KeptElements(us[1..], x);
    }
  }

  lemma KeptAreTuples(us: seq<string>, ts: seq<string>)
    requires Thinned(us, ts) && forall t :: t in ts ==> IsTuple(t)
    ensures forall t :: t in Kept(us) ==> IsTuple(t)
  {
    forall t | t in Kept(us) ensures IsTuple(t) {
      KeptElements(us, t);
      var i :| 0 <= i < |us| && us[i] == t;
      assert ts[i] in ts;
    }
  }

  // -- Written statements are read back -------------------------------------

  lemma {:induction false} TailHasNoTuples(s: string, depth: int, open: Option<string>)
    requires Tail(s, depth, open).Some?
    ensures Tuples(Tail(s, depth, open).value, 0, None) == [] && Tail(Tail(s, depth, open).value, 0, None).None?
  {
    var st := Scan(s[0], depth, open);
    TuplesAreDisjoint(s[1..], st.depth, st.open);
    if Tail(s[1..], st.depth, st.open).Some? {
      TailHasNoTuples(s[1..], st.depth, st.open);
    }
  }

  lemma BehindHasNoTuples(sql: string)
    requires ParseValues(sql).Some?
    ensures Tuples(Behind(sql), 0, None) == [] && Tail(Behind(sql), 0, None).None?
  {
    FindValuesInside(sql);
    var rest := sql[|ParseValues(sql).value.prefix|..];
    LastTupleIsFound(rest);
    TailHasNoTuples(rest, 0, None);
  }

  lemma {:induction false} GapsInTuple(o: string, r: string, d: nat, rest: string)
    requires RunIn(r, d) == Some(1)
    ensures Gaps(r + ")" + rest, d, Some(o)) == [""] + Gaps(rest, 0, None)
    decreases |r|
  {
    var s := r + ")" + rest;
    if r == "" {
      assert s[0] == ')' && s[1..] == rest;
    } else {
      var st := Scan(r[0], d, Some(o));
      assert s[0] == r[0] && s[1..] == r[1..] + ")" + rest;
      GapsInTuple(o + [r[0]], r[1..], st.depth, rest);
    }
  }

  lemma GapsBehindTuple(t: string, rest: string)
    requires IsTuple(t)
    ensures Gaps(t + rest, 0, None) == [""] + Gaps(rest, 0, None)
  {
    var r := t[1..|t| - 1];
    assert t[..|t| - 1][1..] == r && t == "(" + r + ")";
    GapsInTuple("(", r, 1, rest);
    var s := t + rest;
    assert s[0] == '(' && s[1..] == r + ")" + rest;
  }

  /** A separator in front changes only the first gap. */
  lemma BlankBehindSeparator(c: char, s: string)
    requires c == ',' || c == ' '
    ensures Blank(Gaps(s, 0, None)) ==> Blank(Gaps([c] + s, 0, None))
  {
    var gaps := Gaps(s, 0, None);
    assert ([c] + s)[1..] == s;
    if gaps != [] {
      assert Gaps([c] + s, 0, None) == [[c] + gaps[0]] + gaps[1..];
      BlankInFront(c, gaps);
    }
  }

  lemma BlankInFront(c: char, gaps: seq<string>)
    requires (c == ',' || c == ' ') && gaps != []
    ensures Blank(gaps) ==> Blank([[c] + gaps[0]] + gaps[1..])
  {
    BareConcat([c], gaps[0]);
    assert Bare([c]) == Bare([c][1..]) == "";
    assert gaps == [gaps[0]] + gaps[1..];
  }

  lemma BlankBehindComma(s: string)
    ensures Blank(Gaps(s, 0, None)) ==> Blank(Gaps(", " + s, 0, None))
  {
    BlankBehindSeparator(' ', s);
    BlankBehindSeparator(',', " " + s);
    assert ", " + s == "," + (" " + s);
  }

  lemma {:induction false} BlankBetween(ts: seq<string>, tail: string)
    requires ts != [] && Tuples(tail, 0, None) == [] && forall t :: t in ts ==> IsTuple(t)
    ensures Blank(Gaps(Join(", ", ts) + tail, 0, None))
  {
    if |ts| == 1 {
      GapsBehindTuple(ts[0], tail);
      assert Join(", ", ts) == ts[0];
    } else {
      BlankBetween(ts[1..], tail);
      JoinFirst(ts, tail);
      var body := Join(", ", ts[1..]) + tail;
      BlankBehindComma(body);
      GapsBehindTuple(ts[0], ", " + body);
    }
  }

  /** The statement with some rows left out, everything else in place. */
  function Written(sql: string, us: seq<string>): string
    requires ParseValues(sql).Some?
  {
    Rebuild(Insert(ParseValues(sql).value.prefix, Kept(us), Behind(sql)))
  }

  lemma WrittenIsWellFormed(sql: string, us: seq<string>)
    requires ParseValues(sql).Some? && Thinned(us, ParseValues(sql).value.tuples) && Kept(us) != []
    ensures WellFormed(Insert(ParseValues(sql).value.prefix, Kept(us), Behind(sql)))
  {
    ParsedParts(sql);
    ParsedPrefix(sql);
    KeptAreTuples(us, ParseValues(sql).value.tuples);
  }

  lemma RestOfRebuilt(p: Insert)
    ensures Rebuild(p) == p.prefix + (" " + (Join(", ", p.tuples) + p.suffix))
    ensures Rebuild(p)[|p.prefix|..] == " " + (Join(", ", p.tuples) + p.suffix)
  {}

  lemma PlacesOfRest(ts: seq<string>, suffix: string)
    requires ts != [] && Tuples(suffix, 0, None) == [] && Tail(suffix, 0, None).None? && forall t :: t in ts ==> IsTuple(t)
    ensures var rest := " " + (Join(", ", ts) + suffix); Tail(rest, 0, None) == Some(suffix) && Blank(Gaps(rest, 0, None))
  {
    var body := Join(", ", ts) + suffix;
    ReadTuples(ts, suffix);
    SkipSeparator(body);
    BlankBetween(ts, suffix);
    BlankBehindSeparator(' ', body);
  }

  /** How a statement written from well-formed parts reads when its suffix holds no tuple. */
  lemma ReadsBack(p: Insert)
    requires WellFormed(p) && Tuples(p.suffix, 0, None) == [] && Tail(p.suffix, 0, None).None?
    ensures var now := Rebuild(p);
      && ParseValues(now).Some? && ParseValues(now).value.prefix == p.prefix && ParseValues(now).value.tuples == p.tuples
      && Behind(now) == p.suffix && Blank(GapsOf(now))
  {
    var suffix := ParseRebuilt(p);
    assert p.tuples + [] == p.tuples;
    RestOfRebuilt(p);
    PlacesOfRest(p.tuples, p.suffix);
  }

  // -- Statements that only lose rows ---------------------------------------

  /**
   With more than one tuple: only separators between the tuples, and no copy of any
   tuple but the first in the text behind them.
   */
  predicate Sound(sql: string) {
    ParseValues(sql).Some? && |ParseValues(sql).value.tuples| > 1 ==>
      var ts := ParseValues(sql).value.tuples;
      Blank(GapsOf(sql)) && forall k :: 1 <= k < |ts| ==> !Contains(Behind(sql), ts[k])
  }

  /** What is left of a statement after drops: the statement itself, or some of its rows written again. */
  ghost predicate Remains(sql: string, now: string) {
    now == sql ||
    (ParseValues(sql).Some? && exists us ::
       Thinned(us, ParseValues(sql).value.tuples) && Kept(us) != [] && now == Written(sql, us))
  }

  lemma WrittenIsClean(sql: string, us: seq<string>)
    requires ParseValues(sql).Some? && Sound(sql) && Thinned(us, ParseValues(sql).value.tuples) && |Kept(us)| > 1
    ensures var now := Written(sql, us);
      && ParseValues(now) == Some(Insert(ParseValues(sql).value.prefix, Kept(us), Behind(sql)))
      && Clean(now)
  {
    var p := Insert(ParseValues(sql).value.prefix, Kept(us), Behind(sql));
    BehindHasNoTuples(sql);
    WrittenIsWellFormed(sql, us);
    ReadsBack(p);
    var k := LastKept(us);
    assert !Contains(Behind(sql), us[k]);
    RoundTripIff(p);
  }

  lemma CleanHasItsSuffix(sql: string)
    requires ParseValues(sql).Some? && Clean(sql)
    ensures ParseValues(sql).value.suffix == Behind(sql)
  {
    var x := SuffixOfTail(sql);
    assert x + ParseValues(sql).value.suffix == ParseValues(sql).value.suffix;
  }

  lemma SoundIsClean(sql: string)
    requires ParseValues(sql).Some? && |ParseValues(sql).value.tuples| > 1 && Sound(sql)
    ensures Clean(sql) && ParseValues(sql).value.suffix == Behind(sql)
  {
    CleanHasItsSuffix(sql);
  }

  /** The statement counts as one with all its rows written. */
  lemma AllRows(sql: string)
    requires ParseValues(sql).Some?
    ensures var ts := ParseValues(sql).value.tuples; Thinned(ts, ts) && Kept(ts) == ts
  {
    ParsedParts(sql);
    var ts := ParseValues(sql).value.tuples;
    forall t | t in ts ensures t != "" { assert IsTuple(t); }
    KeptOfAll(ts);
  }

  lemma DropFromWritten(sql: string, us: seq<string>, now: string, ti: nat)
    requires ParseValues(sql).Some? && Thinned(us, ParseValues(sql).value.tuples)
    requires ParseValues(now) == Some(Insert(ParseValues(sql).value.prefix, Kept(us), Behind(sql)))
    requires ti < |Kept(us)| && |Kept(us)| > 1
    ensures Remains(sql, DropRow(now, ti))
  {
    var j := KeptDrop(us, ti);
    var next := us[j := ""];
    assert DropRow(now, ti) == Written(sql, next);
  }

  /** From what remains of a sound statement, every possible drop is exact and leaves what remains of it. */
  lemma DropStaysSound(sql: string, now: string, ti: nat)
    requires Sound(sql) && Remains(sql, now)
    requires ParseValues(now).Some? && ti < |ParseValues(now).value.tuples| && |ParseValues(now).value.tuples| > 1
    ensures DropIsExact(now, ti) && Remains(sql, DropRow(now, ti))
  {
    DropIsExactIff(now, ti);
    if now == sql {
      SoundIsClean(sql);
      AllRows(sql);
      DropFromWritten(sql, ParseValues(sql).value.tuples, now, ti);
    } else {
      var us :| Thinned(us, ParseValues(sql).value.tuples) && Kept(us) != [] && now == Written(sql, us);
      BehindHasNoTuples(sql);
      WrittenIsWellFormed(sql, us);
      ReadsBack(Insert(ParseValues(sql).value.prefix, Kept(us), Behind(sql)));
      WrittenIsClean(sql, us);
      DropFromWritten(sql, us, now, ti);
    }
  }

  /** Some rows are gone from the text, at least one is left, and nothing else changed but separators. */
  ghost predicate FewerRows(sql: string, now: string) {
    now == sql ||
    (ParseValues(sql).Some? && exists us ::
       Thinned(us, ParseValues(sql).value.tuples) && Kept(us) != [] && Bare(now) == Bare(TextWith(sql, us)))
  }

  lemma WrittenHasFewerRows(sql: string, us: seq<string>)
    requires ParseValues(sql).Some? && Blank(GapsOf(sql)) && Thinned(us, ParseValues(sql).value.tuples)
    ensures Bare(Written(sql, us)) == Bare(TextWith(sql, us))
  {
    BareRebuild(Insert(ParseValues(sql).value.prefix, Kept(us), Behind(sql)));
    BareTextWith(sql, us);
    BareWeave(GapsOf(sql), us);
    BareKept(us);
  }

  lemma {:induction false} ChainRemains<L, M>(path: seq<Scenario<L, M>>, s: Scenario<L, M>, t: Scenario<L, M>, si: nat)
    requires Chain(path, s, t) && si < |s.initialData| && Sound(s.initialData[si])
    ensures |t.initialData| == |s.initialData| && Remains(s.initialData[si], t.initialData[si])
  {
    if |path| > 1 {
      var n := |path| - 1;
      var u := path[n - 1];
      assert Chain(path[..n], s, u);
      ChainRemains(path[..n], s, u, si);
      assert OneSmaller(u, t);
      if sj: nat, ti: nat :| CanDropTuple(u, sj, ti) && t == DropTuple(u, sj, ti) {
        if sj == si { DropStaysSound(s.initialData[si], u.initialData[si], ti); }
      }
    }
  }

  /** A statement with one row is never touched. */
  lemma {:induction false} ChainLeavesOneRow<L, M>(path: seq<Scenario<L, M>>, s: Scenario<L, M>, t: Scenario<L, M>, si: nat)
    requires Chain(path, s, t) && si < |s.initialData|
    requires ParseValues(s.initialData[si]).Some? ==> |ParseValues(s.initialData[si]).value.tuples| == 1
    ensures |t.initialData| == |s.initialData| && t.initialData[si] == s.initialData[si]
  {
    if |path| > 1 {
      var n := |path| - 1;
      var u := path[n - 1];
      assert Chain(path[..n], s, u);
      ChainLeavesOneRow(path[..n], s, u, si);
      assert OneSmaller(u, t);
      if sj: nat, ti: nat :| CanDropTuple(u, sj, ti) && t == DropTuple(u, sj, ti) {
        assert sj != si;
      }
    }
  }

  /** Over a whole run a sound statement loses rows, and no other text but separators. */
  lemma ChainKeepsStatements<L, M>(path: seq<Scenario<L, M>>, s: Scenario<L, M>, t: Scenario<L, M>, si: nat)
    requires Chain(path, s, t) && si < |s.initialData| && Sound(s.initialData[si])
    ensures |t.initialData| == |s.initialData| && FewerRows(s.initialData[si], t.initialData[si])
  {
    var sql := s.initialData[si];
    if ParseValues(sql).Some? && |ParseValues(sql).value.tuples| > 1 {
      ChainRemains(path, s, t, si);
      var now := t.initialData[si];
      if now != sql {
        var us :| Thinned(us, ParseValues(sql).value.tuples) && Kept(us) != [] && now == Written(sql, us);
        WrittenHasFewerRows(sql, us);
      }
    } else {
      ChainLeavesOneRow(path, s, t, si);
    }
  }

  // -- Any other statement --------------------------------------------------

  /** In every scenario a run can reach, dropping any row of the statement takes away that row and nothing else. */
  ghost predicate DropsAreExact<L(!new), M(!new)>(s: Scenario<L, M>, si: nat) {
    forall path, t, ti: nat :: Chain(path, s, t) && CanDropTuple(t, si, ti) ==> DropIsExact(t.initialData[si], ti)
  }

  lemma ExtendChain<L, M>(path: seq<Scenario<L, M>>, s: Scenario<L, M>, u: Scenario<L, M>, si: nat, ti: nat)
    requires Chain(path, s, u) && CanDropTuple(u, si, ti)
    ensures Chain(path + [DropTuple(u, si, ti)], s, DropTuple(u, si, ti))
  {
    var t := DropTuple(u, si, ti);
    assert OneSmaller(u, t);
  }

  /** Dropping the last of the first rows. */
  lemma DropLastOf<L, M>(u: Scenario<L, M>, si: nat, q: Insert)
    requires si < |u.initialData| && ParseValues(u.initialData[si]) == Some(q) && |q.tuples| > 1
    ensures var n := |q.tuples| - 1;
      CanDropTuple(u, si, n) && DropTuple(u, si, n).initialData[si] == Rebuild(q.(tuples := q.tuples[..n]))
  {
    assert Without(q.tuples, |q.tuples| - 1) == q.tuples[..|q.tuples| - 1];
  }

  lemma DropOneMore<L, M>(path: seq<Scenario<L, M>>, s: Scenario<L, M>, u: Scenario<L, M>, si: nat, q: Insert)
    returns (t: Scenario<L, M>)
    requires Chain(path, s, u) && si < |u.initialData| && ParseValues(u.initialData[si]) == Some(q) && |q.tuples| > 1
    ensures Chain(path + [t], s, t) && si < |t.initialData|
    ensures t.initialData[si] == Rebuild(q.(tuples := q.tuples[..|q.tuples| - 1]))
  {
    DropLastOf(u, si, q);
    t := DropTuple(u, si, |q.tuples| - 1);
    ExtendChain(path, s, u, si, |q.tuples| - 1);
  }

  /** The first rows of a statement, with its suffix. */
  function First(p: Insert, n: nat): Insert
    requires n <= |p.tuples|
  {
    p.(tuples := p.tuples[..n])
  }

  lemma FirstOfFirst(p: Insert, n: nat)
    requires 0 < n <= |p.tuples|
    ensures var q := First(p, n); |q.tuples| == n && q.(tuples := q.tuples[..n - 1]) == First(p, n - 1)
  {
    assert p.tuples[..n][..n - 1] == p.tuples[..n - 1];
  }

  lemma FirstIsRead(sql: string, p: Insert, n: nat)
    requires ParseValues(sql) == Some(p) && Behind(sql) == p.suffix && 1 <= n <= |p.tuples|
    requires !Contains(p.suffix, p.tuples[n - 1])
    ensures ParseValues(Rebuild(First(p, n))) == Some(First(p, n))
  {
    FirstRowsRead(sql, n);
    assert First(p, n) == Insert(p.prefix, p.tuples[..n], Behind(sql));
  }

  /** The rows behind position j can be dropped one by one, as long as none that becomes last has a copy behind. */
  lemma {:induction false} DropDownTo<L, M>(s: Scenario<L, M>, si: nat, p: Insert, j: nat)
    returns (path: seq<Scenario<L, M>>, t: Scenario<L, M>)
    requires si < |s.initialData| && ParseValues(s.initialData[si]) == Some(p) && Behind(s.initialData[si]) == p.suffix
    requires 1 <= j < |p.tuples| && forall i :: j <= i < |p.tuples| ==> !Contains(p.suffix, p.tuples[i])
    ensures Chain(path, s, t) && si < |t.initialData| && t.initialData[si] == Rebuild(First(p, j))
    decreases |p.tuples| - j
  {
    var u;
    if j == |p.tuples| - 1 {
      assert First(p, j + 1) == p;
      path, u := [s], s;
    } else {
      path, u := DropDownTo(s, si, p, j + 1);
      FirstIsRead(s.initialData[si], p, j + 1);
    }
    t := DropToFirst(path, s, u, si, p, j);
    path := path + [t];
  }

  lemma DropToFirst<L, M>(path: seq<Scenario<L, M>>, s: Scenario<L, M>, u: Scenario<L, M>, si: nat, p: Insert, j: nat)
    returns (t: Scenario<L, M>)
    requires Chain(path, s, u) && si < |u.initialData| && 1 <= j < |p.tuples|
    requires ParseValues(u.initialData[si]) == Some(First(p, j + 1))
    ensures Chain(path + [t], s, t) && si < |t.initialData| && t.initialData[si] == Rebuild(First(p, j))
  {
    FirstOfFirst(p, j + 1);
    t := DropOneMore(path, s, u, si, First(p, j + 1));
  }

  /** The first rows, written with the text behind all rows, read back as such. */
  lemma FirstRowsRead(sql: string, n: nat)
    requires ParseValues(sql).Some? && 1 <= n <= |ParseValues(sql).value.tuples|
    ensures var p := ParseValues(sql).value; var q := Insert(p.prefix, p.tuples[..n], Behind(sql)); var now := Rebuild(q);
      && ParseValues(now).Some? && ParseValues(now).value.prefix == p.prefix && ParseValues(now).value.tuples == q.tuples
      && Behind(now) == Behind(sql)
      && (!Contains(Behind(sql), p.tuples[n - 1]) ==> ParseValues(now) == Some(q))
  {
    var p := ParseValues(sql).value;
    var q := Insert(p.prefix, p.tuples[..n], Behind(sql));
    FirstRowsFit(sql, n, q);
    ReadsBack(q);
    RoundTripIff(q);
  }

  lemma FirstRowsFit(sql: string, n: nat, q: Insert)
    requires ParseValues(sql).Some? && 1 <= n <= |ParseValues(sql).value.tuples|
    requires var p := ParseValues(sql).value; q == Insert(p.prefix, p.tuples[..n], Behind(sql))
    ensures WellFormed(q) && Tuples(q.suffix, 0, None) == [] && Tail(q.suffix, 0, None).None?
  {
    ParsedParts(sql);
    ParsedPrefix(sql);
    BehindHasNoTuples(sql);
    assert forall t :: t in q.tuples ==> t in ParseValues(sql).value.tuples;
  }

  /** The last place from which on no tuple has a copy behind. */
  lemma {:induction false} LastCopy(ts: seq<string>, tail: string, m: nat) returns (k: nat)
    requires exists i :: m <= i < |ts| && Contains(tail, ts[i])
    ensures m <= k < |ts| && Contains(tail, ts[k]) && forall i :: k < i < |ts| ==> !Contains(tail, ts[i])
  {
    var n := |ts| - 1;
    if Contains(tail, ts[n]) {
      k := n;
    } else {
      var i :| m <= i < |ts| && Contains(tail, ts[i]);
      assert ts[..n][i] == ts[i];
      k := LastCopy(ts[..n], tail, m);
    }
  }

  lemma FirstIsNotClean(sql: string, p: Insert, n: nat)
    requires ParseValues(sql) == Some(p) && Behind(sql) == p.suffix && 1 <= n <= |p.tuples|
    requires Contains(p.suffix, p.tuples[n - 1])
    ensures var now := Rebuild(First(p, n));
      ParseValues(now).Some? && |ParseValues(now).value.tuples| == n && !Clean(now)
  {
    FirstRowsRead(sql, n);
    assert First(p, n) == Insert(p.prefix, p.tuples[..n], Behind(sql));
  }

  /** A copy of a later tuple: drop the rows behind it, and the next drop takes text away. */
  lemma CopyLosesMore<L, M>(s: Scenario<L, M>, si: nat, p: Insert, k: nat) returns (path: seq<Scenario<L, M>>, t: Scenario<L, M>)
    requires si < |s.initialData| && ParseValues(s.initialData[si]) == Some(p) && Behind(s.initialData[si]) == p.suffix
    requires 1 <= k < |p.tuples| - 1 && Contains(p.suffix, p.tuples[k])
    requires forall i :: k < i < |p.tuples| ==> !Contains(p.suffix, p.tuples[i])
    ensures Chain(path, s, t) && CanDropTuple(t, si, 0) && !DropIsExact(t.initialData[si], 0)
  {
    path, t := DropDownTo(s, si, p, k + 1);
    FirstIsNotClean(s.initialData[si], p, k + 1);
    DropIsExactIff(t.initialData[si], 0);
  }

  /** A statement that is not sound leads to a drop that takes away more than its row. */
  lemma UnsoundLosesMore<L, M>(s: Scenario<L, M>, si: nat) returns (path: seq<Scenario<L, M>>, t: Scenario<L, M>)
    requires si < |s.initialData| && !Sound(s.initialData[si])
    ensures Chain(path, s, t) && CanDropTuple(t, si, 0) && !DropIsExact(t.initialData[si], 0)
  {
    var sql := s.initialData[si];
    if Clean(sql) {
      CleanHasItsSuffix(sql);
      var k := LastCopy(ParseValues(sql).value.tuples, Behind(sql), 1);
      path, t := CopyLosesMore(s, si, ParseValues(sql).value, k);
    } else {
      DropIsExactIff(sql, 0);
      path, t := [s], s;
    }
  }

  /** Every drop of every run takes away its row and nothing else if and only if the statement is sound. */
  lemma OnlyRowsAreLostIff<L(!new), M(!new)>(s: Scenario<L, M>, si: nat)
    requires si < |s.initialData|
    ensures Sound(s.initialData[si]) <==> DropsAreExact(s, si)
  {
    if Sound(s.initialData[si]) {
      forall path, t, ti: nat | Chain(path, s, t) && CanDropTuple(t, si, ti) ensures DropIsExact(t.initialData[si], ti) {
        ChainRemains(path, s, t, si);
        DropStaysSound(s.initialData[si], t.initialData[si], ti);
      }
    } else {
      var path, t := UnsoundLosesMore(s, si);
    }
  }
}
