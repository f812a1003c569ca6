/** What the text of a statement loses when it is taken apart and put together again. */
module InsertText {
  import opened Text
  import opened InsertValues
  import opened InsertRoundTrip

  // -- Text without separators ----------------------------------------------

  /** Commas and whitespace dropped. */
  function Bare(s: string): string {
    if s == "" then "" else (if s[0] == ',' || IsSpace(s[0]) then "" else [s[0]]) + Bare(s[1..])
  }

  lemma {:induction false} BareConcat(a: string, b: string)
    ensures Bare(a + b) == Bare(a) + Bare(b)
  {
    if a == "" {
      assert a + b == b;
    } else {
      assert (a + b)[1..] == a[1..] + b;
      BareConcat(a[1..], b);
    }
  }

  function BareAll(ts: seq<string>): string {
    if ts == [] then "" else Bare(ts[0]) + BareAll(ts[1..])
  }

  lemma {:induction false} BareJoin(ts: seq<string>)
    ensures Bare(Join(", ", ts)) == BareAll(ts)
  {
    if |ts| == 1 {
      assert ts[1..] == [] && Bare(ts[0]) + "" == Bare(ts[0]);
    } else if |ts| > 1 {
      var rest := Join(", ", ts[1..]);
      BareJoin(ts[1..]);
      BareConcat(ts[0] + ", ", rest);
      BareConcat(ts[0], ", ");
      BareSeparator();
    }
  }

  lemma BareSeparator()
    ensures Bare(", ") == "" && Bare(" ") == ""
  {
    assert ", "[1..] == " " && " "[1..] == "";
  }

  lemma BareRebuild(p: Insert)
    ensures Bare(Rebuild(p)) == Bare(p.prefix) + (BareAll(p.tuples) + Bare(p.suffix))
  {
    var joined := Join(", ", p.tuples);
    BareConcat(p.prefix + " " + joined, p.suffix);
    BareConcat(p.prefix + " ", joined);
    BareConcat(p.prefix, " ");
    BareSeparator();
    BareJoin(p.tuples);
  }

  /** Only separators in front of any tuple. */
  predicate Blank(gaps: seq<string>) {
    forall g :: g in gaps ==> Bare(g) == ""
  }

  lemma {:induction false} BareWeave(gaps: seq<string>, us: seq<string>)
    requires |gaps| == |us|
    ensures |Bare(Weave(gaps, us))| >= |BareAll(us)|
    ensures Blank(gaps) ==> Bare(Weave(gaps, us)) == BareAll(us)
    ensures |Bare(Weave(gaps, us))| == |BareAll(us)| ==> Blank(gaps)
  {
    if us != [] {
      var rest := Weave(gaps[1..], us[1..]);
      BareWeave(gaps[1..], us[1..]);
      BareConcat(gaps[0], us[0] + rest);
      BareConcat(us[0], rest);
      assert gaps == [gaps[0]] + gaps[1..];
    }
  }

  // -- The parts of a statement, where they stand ---------------------------

  function GapsOf(sql: string): (gaps: seq<string>)
    requires ParseValues(sql).Some?
    ensures |gaps| == |ParseValues(sql).value.tuples|
  {
    FindValuesInside(sql);
    Gaps(sql[|ParseValues(sql).value.prefix|..], 0, None)
  }

  /** The statement with other texts in the places of its tuples. */
  function TextWith(sql: string, us: seq<string>): string
    requires ParseValues(sql).Some? && |us| == |ParseValues(sql).value.tuples|
  {
    ParseValues(sql).value.prefix + (Weave(GapsOf(sql), us) + Behind(sql))
  }

  /** A statement is its prefix, its tuples with the text in front of each, and the text behind them. */
  lemma StatementInPlace(sql: string)
    requires ParseValues(sql).Some?
    ensures sql == TextWith(sql, ParseValues(sql).value.tuples)
  {
    var p := ParseValues(sql).value;
    FindValuesInside(sql);
    var rest := sql[|p.prefix|..];
    TuplesInPlace(rest, 0, None);
    assert OpenText(None) + rest == rest;
    assert sql == p.prefix + rest;
  }

  // -- The suffix and the text behind the tuples ----------------------------

  lemma LastOfRest(rest: string, before: string, t: string, tail: string)
    requires rest == before + (t + tail) && IsTuple(t)
    ensures var k := RFind(rest, t, |rest|);
      && |before| <= k && k + |t| <= |rest|
      && (k == |before| <==> !Contains(tail, t))
      && (k > |before| ==> k >= |before| + |t|)
  {
    var k := RFind(rest, t, |rest|);
    LastInPlaceIff(before, t, tail);
    AtItsPlace(before, t, tail);
    RFindIsLast(rest, t, |rest|, |before|);
    if k > |before| {
      NotInside(before, t, tail, k);
    }
  }

  lemma AtItsPlace(before: string, t: string, tail: string)
    ensures At(before + (t + tail), |before|, t)
  {
    assert (t + tail)[0..|t|] == t;
    AtBehind(before, t + tail, t, 0);
  }

  lemma NotInside(before: string, t: string, tail: string, k: nat)
    requires IsTuple(t) && k > |before| && At(before + (t + tail), k, t)
    ensures k >= |before| + |t|
  {
    AtBehind(before, t + tail, t, k - |before|);
    NoOverlap(t, tail, k - |before|);
  }

  /** What the search for the last tuple cuts off the text behind it: nothing, or text that ends in a copy of the tuple. */
  lemma CutOff(rest: string, before: string, t: string, tail: string, k: nat) returns (x: string)
    requires rest == before + (t + tail) && IsTuple(t) && k == RFind(rest, t, |rest|) && k + |t| <= |rest|
    ensures tail == x + rest[k + |t|..]
    ensures x == "" <==> !Contains(tail, t)
    ensures x != "" ==> Bare(x) != ""
  {
    LastOfRest(rest, before, t, tail);
    var n := k - |before|;
    x := tail[..n];
    assert rest[k + |t|..] == tail[n..];
    if n > 0 {
      assert tail[n - |t|..n] == rest[k..k + |t|];
      FoundAt(rest, t, k, |before|);
      assert x == tail[..n - |t|] + t;
      TupleIsNotBare(t);
      BareConcat(tail[..n - |t|], t);
    }
  }

  lemma FoundAt(rest: string, t: string, k: nat, b: nat)
    requires k == RFind(rest, t, |rest|) && b <= k <= |rest| && At(rest, b, t)
    ensures At(rest, k, t)
  {
    RFindIsLast(rest, t, |rest|, b);
  }

  lemma TupleIsNotBare(t: string)
    requires IsTuple(t)
    ensures Bare(t) != ""
  {
    assert t[..|t| - 1][0] == t[0] == '(';
  }

  lemma SuffixOfTail(sql: string) returns (x: string)
    requires ParseValues(sql).Some?
    ensures var p := ParseValues(sql).value;
      && Behind(sql) == x + p.suffix
      && (x == "" <==> !Contains(Behind(sql), p.tuples[|p.tuples| - 1]))
      && (x != "" ==> Bare(x) != "")
  {
    var p := ParseValues(sql).value;
    FindValuesInside(sql);
    var rest := sql[|p.prefix|..];
    var before := LastInRest(rest);
    LastTupleIsFound(rest);
    var t := p.tuples[|p.tuples| - 1];
    x := CutOff(rest, before, t, Behind(sql), RFind(rest, t, |rest|));
  }

  lemma LastInRest(rest: string) returns (before: string)
    requires Tuples(rest, 0, None) != []
    ensures Tail(rest, 0, None).Some?
    ensures var ts := Tuples(rest, 0, None);
      IsTuple(ts[|ts| - 1]) && rest == before + (ts[|ts| - 1] + Tail(rest, 0, None).value)
  {
    before := LastTuple(rest, 0, None);
    assert OpenText(None) + rest == rest;
    TuplesAreTuples(rest, 0, None);
  }

  // -- Exactly when nothing else is lost ------------------------------------

  /** Nothing but separators between the tuples, and no copy of the last tuple behind it. */
  predicate Clean(sql: string)
    requires ParseValues(sql).Some?
  {
    var ts := ParseValues(sql).value.tuples;
    Blank(GapsOf(sql)) && !Contains(Behind(sql), ts[|ts| - 1])
  }

  lemma BareTextWith(sql: string, us: seq<string>)
    requires ParseValues(sql).Some? && |us| == |ParseValues(sql).value.tuples|
    ensures Bare(TextWith(sql, us)) == Bare(ParseValues(sql).value.prefix) + (Bare(Weave(GapsOf(sql), us)) + Bare(Behind(sql)))
  {
    var woven := Weave(GapsOf(sql), us);
    BareConcat(ParseValues(sql).value.prefix, woven + Behind(sql));
    BareConcat(woven, Behind(sql));
  }

  lemma SameBare(p: string, a: string, w: string, x: string, suffix: string)
    requires |w| >= |a|
    ensures p + (a + suffix) == p + (w + (x + suffix)) <==> w == a && x == ""
  {
    var l, r := p + (a + suffix), p + (w + (x + suffix));
    assert |r| == |l| + (|w| - |a|) + |x|;
    if l == r {
      assert l[|p|..|p| + |a|] == a && r[|p|..|p| + |w|] == w;
    }
    if x == "" { assert x + suffix == suffix; }
  }

  /**
   The statement written from texts vs keeps everything else of the original if and
   only if the original is clean; us are the same texts in the places of the tuples.
   */
  lemma WrittenKeepsRestIff(sql: string, us: seq<string>, vs: seq<string>)
    requires ParseValues(sql).Some? && |us| == |ParseValues(sql).value.tuples| && BareAll(us) == BareAll(vs)
    ensures Bare(Rebuild(ParseValues(sql).value.(tuples := vs))) == Bare(TextWith(sql, us)) <==> Clean(sql)
  {
    var p := ParseValues(sql).value;
    var w := Bare(Weave(GapsOf(sql), us));
    var x := SuffixOfTail(sql);
    BareRebuild(p.(tuples := vs));
    BareTextWith(sql, us);
    BareConcat(x, p.suffix);
    BareWeave(GapsOf(sql), us);
    SameBare(Bare(p.prefix), BareAll(vs), w, Bare(x), Bare(p.suffix));
  }

  /** Taking a statement apart and putting it together keeps its text, separators aside, if and only if it is clean. */
  lemma ParseLosesNothingIff(sql: string)
    requires ParseValues(sql).Some?
    ensures Bare(Rebuild(ParseValues(sql).value)) == Bare(sql) <==> Clean(sql)
  {
    var p := ParseValues(sql).value;
    StatementInPlace(sql);
    WrittenKeepsRestIff(sql, p.tuples, p.tuples);
    assert p.(tuples := p.tuples) == p;
  }

  // -- Dropping one tuple ---------------------------------------------------

  lemma {:induction false} BareWithout(ts: seq<string>, i: nat)
    requires i < |ts|
    ensures BareAll(Without(ts, i)) == BareAll(ts[i := ""])
  {
    var us := ts[i := ""];
    if i == 0 {
      assert Without(ts, 0) == ts[1..] == us[1..];
      assert Bare("") + BareAll(us[1..]) == BareAll(us[1..]);
    } else {
      BareWithout(ts[1..], i - 1);
      assert us[1..] == ts[1..][i - 1 := ""] && Without(ts, i)[1..] == Without(ts[1..], i - 1);
    }
  }

  function DropRow(sql: string, ti: nat): string
    requires ParseValues(sql).Some? && ti < |ParseValues(sql).value.tuples|
  {
    var p := ParseValues(sql).value;
    Rebuild(p.(tuples := Without(p.tuples, ti)))
  }

  /** The drop takes away the text of that tuple where it stands, and nothing else but separators. */
  predicate DropIsExact(sql: string, ti: nat)
    requires ParseValues(sql).Some? && ti < |ParseValues(sql).value.tuples|
  {
    Bare(DropRow(sql, ti)) == Bare(TextWith(sql, ParseValues(sql).value.tuples[ti := ""]))
  }

  lemma DropIsExactIff(sql: string, ti: nat)
    requires ParseValues(sql).Some? && ti < |ParseValues(sql).value.tuples|
    ensures DropIsExact(sql, ti) <==> Clean(sql)
  {
    var ts := ParseValues(sql).value.tuples;
    BareWithout(ts, ti);
    WrittenKeepsRestIff(sql, ts[ti := ""], Without(ts, ti));
  }
}
