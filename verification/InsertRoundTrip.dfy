/** Which statements survive being rebuilt: parsing undoes rebuilding exactly when the suffix is harmless. */
module InsertRoundTrip {
  import opened Text
  import opened InsertValues

  // -- The prefix is found again --------------------------------------------

  /** A prefix that ends with its first VALUES. */
  predicate EndsInValues(prefix: string) {
    FindValues(prefix, 0) == Some(|prefix|)
  }

  lemma ValuesAtPrefix(prefix: string, rest: string, k: nat)
    requires rest == "" || !IsWord(rest[0])
    requires k + 6 <= |prefix|
    ensures ValuesAt(prefix + rest, k) <==> ValuesAt(prefix, k)
  {
    var s := prefix + rest;
    assert s[k..k + 6] == prefix[k..k + 6];
  }

  /** Text that does not continue the word does not move the match. */
  lemma {:induction false} FindPrefix(prefix: string, rest: string, i: nat)
    requires rest == "" || !IsWord(rest[0])
    ensures FindValues(prefix + rest, i) == Some(|prefix|) <==> FindValues(prefix, i) == Some(|prefix|)
    decreases |prefix| - i
  {
    if i + 6 <= |prefix| {
      ValuesAtPrefix(prefix, rest, i);
      FindPrefix(prefix, rest, i + 1);
    } else {
      TooShort(prefix + rest, |prefix|, i);
      TooShort(prefix, |prefix|, i);
    }
  }

  /** A match that starts at i or later ends at least six characters behind i. */
  lemma {:induction false} TooShort(sql: string, e: nat, i: nat)
    requires i + 6 > e
    ensures FindValues(sql, i) != Some(e)
    decreases |sql| - i
  {
    if i < |sql| && !ValuesAt(sql, i) { TooShort(sql, e, i + 1); }
  }

  lemma ParsedPrefix(sql: string)
    requires ParseValues(sql).Some?
    ensures EndsInValues(ParseValues(sql).value.prefix)
  {
    var prefix := ParseValues(sql).value.prefix;
    FindValuesInside(sql);
    var rest := sql[|prefix|..];
    assert sql == prefix + rest;
    FindPrefix(prefix, rest, 0);
  }

  // -- The tuples are read again --------------------------------------------

  lemma {:induction false} NoOpensNoTuples(s: string, d: int)
    requires Opens(s) == 0
    ensures Tuples(s, d, None) == [] && Tail(s, d, None).None?
  {
    if s != "" { NoOpensNoTuples(s[1..], Scan(s[0], d, None).depth); }
  }

  /** The scan closes the tuple it is in and starts afresh behind it. */
  lemma {:induction false} ReadTuple(o: string, r: string, d: nat, rest: string)
    requires RunIn(r, d) == Some(1)
    ensures Tuples(r + ")" + rest, d, Some(o)) == [o + r + ")"] + Tuples(rest, 0, None)
    ensures Tail(r + ")" + rest, d, Some(o)) ==
            if Tail(rest, 0, None).Some? then Tail(rest, 0, None) else Some(rest)
    decreases |r|
  {
    var s := r + ")" + rest;
    if r == "" {
      assert s[0] == ')' && s[1..] == rest;
      assert o + r + ")" == o + [')'];
    } else {
      var st := Scan(r[0], d, Some(o));
      assert s[0] == r[0] && s[1..] == r[1..] + ")" + rest;
      ReadTuple(o + [r[0]], r[1..], st.depth, rest);
      assert o + [r[0]] + r[1..] + ")" == o + r + ")";
      assert Tuples(s, d, Some(o)) == st.emitted + Tuples(s[1..], st.depth, st.open);
    }
  }

  lemma ReadOneTuple(t: string, rest: string)
    requires IsTuple(t)
    ensures Tuples(t + rest, 0, None) == [t] + Tuples(rest, 0, None)
    ensures Tail(t + rest, 0, None) == if Tail(rest, 0, None).Some? then Tail(rest, 0, None) else Some(rest)
  {
    var r := t[1..|t| - 1];
    assert t[..|t| - 1][1..] == r;
    assert t == "(" + r + ")";
    ReadTuple("(", r, 1, rest);
    var s := t + rest;
    assert s[0] == '(' && s[1..] == r + ")" + rest;
  }

  lemma JoinFirst(ts: seq<string>, suffix: string)
    requires |ts| > 1
    ensures Join(", ", ts) + suffix == ts[0] + (", " + (Join(", ", ts[1..]) + suffix))
  {}

  lemma ReadFirst(t: string, body: string)
    requires IsTuple(t)
    ensures Tuples(t + (", " + body), 0, None) == [t] + Tuples(body, 0, None)
    ensures Tail(body, 0, None).Some? ==> Tail(t + (", " + body), 0, None) == Tail(body, 0, None)
  {
    ReadOneTuple(t, ", " + body);
    SkipSeparator(body);
  }

  lemma FirstAndMore(ts: seq<string>, more: seq<string>)
    requires ts != []
    ensures [ts[0]] + (ts[1..] + more) == ts + more
  {}

  /** Every written tuple is read back, and then whatever the suffix holds. */
  lemma {:induction false} ReadTuples(ts: seq<string>, suffix: string)
    requires ts != [] && forall t :: t in ts ==> IsTuple(t)
    ensures Tuples(Join(", ", ts) + suffix, 0, None) == ts + Tuples(suffix, 0, None)
    ensures Tail(Join(", ", ts) + suffix, 0, None).Some?
    ensures Tail(suffix, 0, None).None? ==> Tail(Join(", ", ts) + suffix, 0, None) == Some(suffix)
  {
    if |ts| == 1 {
      assert ts == [ts[0]] && Join(", ", ts) == ts[0];
      ReadOneTuple(ts[0], suffix);
    } else {
      var body := Join(", ", ts[1..]) + suffix;
      ReadTuples(ts[1..], suffix);
      JoinFirst(ts, suffix);
      ReadFirst(ts[0], body);
      FirstAndMore(ts, Tuples(suffix, 0, None));
    }
  }

  lemma SkipSeparator(s: string)
    ensures Tuples(", " + s, 0, None) == Tuples(s, 0, None) == Tuples(" " + s, 0, None)
    ensures Tail(", " + s, 0, None) == Tail(s, 0, None) == Tail(" " + s, 0, None)
  {
    assert (", " + s)[1..] == " " + s && (" " + s)[1..] == s;
  }

  // -- A tuple does not overlap itself --------------------------------------

  /** Opening less closing parentheses. */
  function Net(s: string): int {
    if s == "" then 0 else (if s[0] == '(' then 1 else if s[0] == ')' then -1 else 0) + Net(s[1..])
  }

  lemma {:induction false} NetConcat(a: string, b: string)
    ensures Net(a + b) == Net(a) + Net(b)
  {
    if a == "" {
      assert a + b == b;
    } else {
      assert (a + b)[1..] == a[1..] + b;
      NetConcat(a[1..], b);
    }
  }

  /** Inside a run the depth stays positive. */
  lemma {:induction false} RunInNet(s: string, d: nat, j: nat)
    requires RunIn(s, d).Some? && j <= |s|
    ensures d + Net(s[..j]) >= 1 && RunIn(s, d).value == d + Net(s)
  {
    if s != "" {
      var e := if s[0] == '(' then d + 1 else if s[0] == ')' then d - 1 else d;
      RunInNet(s[1..], e, if j == 0 then 0 else j - 1);
      if j > 0 { assert s[..j][1..] == s[1..][..j - 1]; }
    }
  }

  lemma TupleNet(t: string, k: nat)
    requires IsTuple(t) && 0 < k < |t|
    ensures Net(t[..k]) >= 1 && Net(t[k..]) <= -1
  {
    var r := t[1..|t| - 1];
    assert t[..|t| - 1][1..] == r && t == "(" + (r + ")");
    RunInNet(r, 1, k - 1);
    assert t[..k] == "(" + r[..k - 1];
    NetConcat("(", r[..k - 1]);
    NetConcat("(", r + ")");
    NetConcat(r, ")");
    assert "("[1..] == "" && ")"[1..] == "";
    NetConcat(t[..k], t[k..]);
    assert t == t[..k] + t[k..];
  }

  lemma Overlaps(t: string, suffix: string, k: nat)
    requires k < |t| && At(t + suffix, k, t)
    ensures t[k..] == t[..|t| - k]
  {
    var s := t + suffix;
    forall i | 0 <= i < |t| - k ensures t[k..][i] == t[..|t| - k][i] {
      assert s[k..k + |t|][i] == s[k + i] == t[k + i];
    }
  }

  /** Behind its own first character, a tuple occurs only in the text that follows it. */
  lemma NoOverlap(t: string, suffix: string, k: nat)
    requires IsTuple(t) && 0 < k && At(t + suffix, k, t)
    ensures k >= |t| && At(suffix, k - |t|, t)
  {
    var s, n := t + suffix, |t| - k;
    if k < |t| {
      Overlaps(t, suffix, k);
      TupleNet(t, k);
      TupleNet(t, n);
      assert false;
    }
    assert s[k..k + |t|] == suffix[k - |t|..k - |t| + |t|];
  }

  lemma AtBehind(x: string, s: string, t: string, k: nat)
    ensures At(x + s, |x| + k, t) <==> At(s, k, t)
  {
    if k + |t| <= |s| {
      assert (x + s)[|x| + k..|x| + k + |t|] == s[k..k + |t|];
    }
  }

  /** The last tuple is found where it stands exactly when the suffix does not repeat it. */
  lemma LastInPlaceIff(x: string, t: string, suffix: string)
    requires IsTuple(t)
    ensures var text := x + (t + suffix);
      && |x| <= RFind(text, t, |text|) && (RFind(text, t, |text|) == |x| <==> !Contains(suffix, t))
  {
    var s := t + suffix;
    var text := x + s;
    assert s[..|t|] == t;
    AtBehind(x, s, t, 0);
    RFindIsLast(text, t, |text|, |x|);
    var k := RFind(text, t, |text|);
    if k > |x| {
      AtBehind(x, s, t, k - |x|);
      NoOverlap(t, suffix, k - |x|);
    } else if Contains(suffix, t) {
      var j: nat :| At(suffix, j, t);
      AtBehind(t, suffix, t, j);
      AtBehind(x, s, t, |t| + j);
      RFindIsLast(text, t, |text|, |x| + |t| + j);
    }
  }

  // -- The round trip -------------------------------------------------------

  predicate WellFormed(p: Insert) {
    EndsInValues(p.prefix) && p.tuples != [] && forall t :: t in p.tuples ==> IsTuple(t)
  }

  /** No complete tuple in the suffix, and no copy of the last tuple. */
  predicate Harmless(p: Insert)
    requires p.tuples != []
  {
    Tuples(p.suffix, 0, None) == [] && !Contains(p.suffix, p.tuples[|p.tuples| - 1])
  }

  /** The written tuples end with the last one. */
  lemma {:induction false} JoinEnds(ts: seq<string>) returns (x: string)
    requires ts != []
    ensures Join(", ", ts) == x + ts[|ts| - 1]
  {
    if |ts| == 1 {
      x := "";
    } else {
      x := JoinEnds(ts[1..]);
      x := ts[0] + ", " + x;
    }
  }

  lemma Regroup(a: string, b: string, x: string, t: string, c: string)
    requires b == x + t
    ensures a + " " + b + c == a + (" " + (b + c)) && " " + (b + c) == " " + x + (t + c)
  {}

  lemma RestTuples(ts: seq<string>, suffix: string)
    requires ts != [] && forall t :: t in ts ==> IsTuple(t)
    ensures Tuples(" " + (Join(", ", ts) + suffix), 0, None) == ts + Tuples(suffix, 0, None)
  {
    ReadTuples(ts, suffix);
    SkipSeparator(Join(", ", ts) + suffix);
  }

  lemma RebuiltRest(p: Insert) returns (rest: string)
    requires WellFormed(p)
    ensures Rebuild(p) == p.prefix + rest && rest != "" && rest[0] == ' '
    ensures Tuples(rest, 0, None) == p.tuples + Tuples(p.suffix, 0, None)
    ensures Tuples(p.suffix, 0, None) == [] ==> (Suffix(rest) == p.suffix <==> !Contains(p.suffix, p.tuples[|p.tuples| - 1]))
  {
    var joined, t := Join(", ", p.tuples), p.tuples[|p.tuples| - 1];
    var x := JoinEnds(p.tuples);
    Regroup(p.prefix, joined, x, t, p.suffix);
    rest := " " + (joined + p.suffix);
    RestTuples(p.tuples, p.suffix);
    SuffixIff(rest, " " + x, t, p.suffix);
  }

  lemma SuffixIff(rest: string, x: string, t: string, suffix: string)
    requires rest == x + (t + suffix) && IsTuple(t)
    ensures var ts := Tuples(rest, 0, None);
      ts != [] && ts[|ts| - 1] == t ==> (Suffix(rest) == suffix <==> !Contains(suffix, t))
  {
    LastInPlaceIff(x, t, suffix);
    var ts, k := Tuples(rest, 0, None), RFind(rest, t, |rest|);
    assert rest[|x| + |t|..] == suffix;
    if ts != [] && ts[|ts| - 1] == t {
      LastTupleIsFound(rest);
      assert Suffix(rest) == rest[k + |t|..];
    }
  }

  /** How any statement written from well-formed parts is read. */
  lemma ParseRebuilt(p: Insert) returns (suffix: string)
    requires WellFormed(p)
    ensures ParseValues(Rebuild(p)) == Some(Insert(p.prefix, p.tuples + Tuples(p.suffix, 0, None), suffix))
    ensures Tuples(p.suffix, 0, None) == [] ==> (suffix == p.suffix <==> !Contains(p.suffix, p.tuples[|p.tuples| - 1]))
  {
    var rest := RebuiltRest(p);
    FindPrefix(p.prefix, rest, 0);
    assert Rebuild(p)[..|p.prefix|] == p.prefix && Rebuild(p)[|p.prefix|..] == rest;
    suffix := Suffix(rest);
  }

  /**
   Every insert written from well-formed parts parses back to those parts if and only
   if its suffix is harmless.
   */
  lemma RoundTripIff(p: Insert)
    requires WellFormed(p)
    ensures ParseValues(Rebuild(p)) == Some(p) <==> Harmless(p)
  {
    var suffix := ParseRebuilt(p);
    var more := Tuples(p.suffix, 0, None);
    assert |p.tuples + more| == |p.tuples| + |more|;
    if more == [] {
      assert p.tuples + more == p.tuples;
    }
  }

  // -- What parsing loses ---------------------------------------------------

  /** The text behind the last tuple of a statement. */
  function Behind(sql: string): string
    requires ParseValues(sql).Some?
  {
    FindValuesInside(sql);
    var rest := sql[|ParseValues(sql).value.prefix|..];
    LastTupleIsFound(rest);
    Tail(rest, 0, None).value
  }

  /** A suffix without an opening parenthesis is harmless. */
  lemma NoOpensHarmless(suffix: string, t: string)
    requires Opens(suffix) == 0 && IsTuple(t)
    ensures Tuples(suffix, 0, None) == [] && !Contains(suffix, t)
  {
    NoOpensNoTuples(suffix, 0);
    forall k: nat ensures !At(suffix, k, t) {
      if At(suffix, k, t) {
        assert suffix == suffix[..k] + (t + suffix[k + |t|..]);
        OpensConcat(suffix[..k], t + suffix[k + |t|..]);
        OpensConcat(t, suffix[k + |t|..]);
        assert false;
      }
    }
  }

  /** A statement rebuilt from some of its tuples parses to the same prefix, exactly those tuples, and the same suffix. */
  lemma RebuiltParsesBack(sql: string, ts: seq<string>)
    requires ParseValues(sql).Some? && Opens(ParseValues(sql).value.suffix) == 0
    requires ts != [] && forall t :: t in ts ==> t in ParseValues(sql).value.tuples
    ensures var p := ParseValues(sql).value.(tuples := ts); ParseValues(Rebuild(p)) == Some(p)
  {
    var p := ParseValues(sql).value.(tuples := ts);
    ParsedParts(sql);
    ParsedPrefix(sql);
    NoOpensHarmless(p.suffix, ts[|ts| - 1]);
    RoundTripIff(p);
  }

  /** Parentheses that never close too early and all close. */
  predicate Balanced(s: string, d: nat) {
    if s == "" then d == 0
    else if s[0] == '(' then Balanced(s[1..], d + 1)
    else if s[0] == ')' then d > 0 && Balanced(s[1..], d - 1)
    else Balanced(s[1..], d)
  }

  lemma {:induction false} BalancedTail(s: string, d: nat, open: Option<string>)
    requires Balanced(s, d) && (open.Some? <==> d > 0)
    ensures Opens(OpenText(Tail(s, d, open))) == 0
    ensures Tail(s, d, open).None? ==> Opens(s) == 0 && d == 0
  {
    if s != "" {
      var st := Scan(s[0], d, open);
      BalancedTail(s[1..], st.depth, st.open);
    }
  }

  lemma BalancedHasNoOpenSuffix(sql: string)
    requires ParseValues(sql).Some?
    requires Balanced(sql[|ParseValues(sql).value.prefix|..], 0)
    ensures Opens(ParseValues(sql).value.suffix) == 0
  {
    var p := ParseValues(sql).value;
    FindValuesInside(sql);
    var rest := sql[|p.prefix|..];
    BalancedTail(rest, 0, None);
    LastTupleIsFound(rest);
    NoOpensInSuffix(Tail(rest, 0, None).value, p.suffix);
  }

  lemma NoOpensInSuffix(tail: string, suffix: string)
    requires |suffix| <= |tail| && suffix == tail[|tail| - |suffix|..] && Opens(tail) == 0
    ensures Opens(suffix) == 0
  {
    var front := tail[..|tail| - |suffix|];
    assert tail == front + suffix;
    OpensConcat(front, suffix);
  }
}
