/** Taking an `INSERT ... VALUES` statement apart into row tuples and putting it together again. */
module InsertValues {
  import opened Text

  datatype Insert = Insert(prefix: string, tuples: seq<string>, suffix: string)

  // -- The word VALUES ------------------------------------------------------

  predicate ValuesAt(sql: string, i: nat) {
    && i + 6 <= |sql|
    && Upper(sql[i..i + 6]) == "VALUES"
    && (i == 0 || !IsWord(sql[i - 1]))
    && (i + 6 == |sql| || !IsWord(sql[i + 6]))
  }

  /** The word VALUES in any case, with no letter, digit or underscore next to it. */
  lemma ValuesAtIff(a: string, w: string, b: string)
    requires |w| == 6
    ensures ValuesAt(a + (w + b), |a|) <==>
      SameLetters(w, "VALUES") && (a == "" || !IsWord(a[|a| - 1])) && (b == "" || !IsWord(b[0]))
  {
    var s := a + (w + b);
    assert s[|a|..|a| + 6] == w && (a != "" ==> s[|a| - 1] == a[|a| - 1]) && (b != "" ==> s[|a| + 6] == b[0]);
    SameUpper(w, "VALUES");
    assert Upper("VALUES") == "VALUES";
  }

  /** End of the first match of `\bVALUES\b` at or after i. */
  function FindValues(sql: string, i: nat): Option<nat>
    decreases |sql| - i
  {
    if i >= |sql| then None
    else if ValuesAt(sql, i) then Some(i + 6)
    else FindValues(sql, i + 1)
  }

  /** No match from a up to b. */
  predicate NoValues(sql: string, a: nat, b: int) {
    forall k :: a <= k < b ==> !ValuesAt(sql, k)
  }

  lemma NoneHereEither(sql: string, i: nat, b: int)
    requires !ValuesAt(sql, i) && NoValues(sql, i + 1, b)
    ensures NoValues(sql, i, b)
  {}

  /** The match is one, and the first one. */
  lemma {:induction false} FindValuesIsFirst(sql: string, i: nat)
    ensures var r := FindValues(sql, i);
      && (r.Some? ==> i + 6 <= r.value <= |sql| && ValuesAt(sql, r.value - 6))
      && NoValues(sql, i, if r.Some? then r.value - 6 else |sql|)
    decreases |sql| - i
  {
    if i < |sql| && !ValuesAt(sql, i) {
      FindValuesIsFirst(sql, i + 1);
      var r := FindValues(sql, i + 1);
      NoneHereEither(sql, i, if r.Some? then r.value - 6 else |sql|);
    }
  }

  lemma FindValuesInside(sql: string)
    requires FindValues(sql, 0).Some?
    ensures var e := FindValues(sql, 0).value; 6 <= e <= |sql| && (e == |sql| || !IsWord(sql[e]))
  {
    FindValuesIsFirst(sql, 0);
  }

  // -- Top-level tuples -----------------------------------------------------

  datatype Step = Step(emitted: seq<string>, depth: int, open: Option<string>)

  /** One character of the scan: the depth, and the text of the tuple being read, if one is open. */
  function Scan(c: char, depth: int, open: Option<string>): Step {
    if c == '(' && depth == 0 then Step([], 1, Some("("))
    else
      var text := if open.Some? then Some(open.value + [c]) else None;
      if c == '(' then Step([], depth + 1, text)
      else if c == ')' && depth == 1 && text.Some? then Step([text.value], 0, None)
      else if c == ')' then Step([], depth - 1, text)
      else Step([], depth, text)
  }

  function Tuples(s: string, depth: int, open: Option<string>): seq<string> {
    if s == "" then [] else
      var st := Scan(s[0], depth, open);
      st.emitted + Tuples(s[1..], st.depth, st.open)
  }

  /** The text after the last tuple. */
  function Tail(s: string, depth: int, open: Option<string>): Option<string> {
    if s == "" then None else
      var st := Scan(s[0], depth, open);
      var rest := Tail(s[1..], st.depth, st.open);
      if rest.None? && st.emitted != [] then Some(s[1..]) else rest
  }

  lemma TuplesNext(s: string, depth: int, open: Option<string>, done: seq<string>, rest: string)
    requires s != "" && rest == s[1..]
    ensures var st := Scan(s[0], depth, open);
      done + Tuples(s, depth, open) == (done + st.emitted) + Tuples(rest, st.depth, st.open)
  {
    var st := Scan(s[0], depth, open);
    var more := Tuples(rest, st.depth, st.open);
    assert done + (st.emitted + more) == (done + st.emitted) + more;
  }

  /** One turn of the scan. */
  method TupleTurn(src: string, i: nat, depth: int, start: Option<nat>)
    returns (depth': int, start': Option<nat>, emitted: seq<string>)
    requires i < |src| && (start.Some? ==> start.value <= i)
    ensures start'.Some? ==> start'.value <= i
    ensures Scan(src[i], depth, Reading(src, start, i)) == Step(emitted, depth', Reading(src, start', i + 1))
  {
    var ch := src[i];
    assert start.Some? ==> src[start.value..i] + [ch] == src[start.value..i + 1];
    assert src[i..i + 1] == [ch];
    depth', start', emitted := depth, start, [];
    if ch == '(' {
      if depth == 0 {
        start' := Some(i);
      }
      depth' := depth + 1;
    } else if ch == ')' {
      depth' := depth - 1;
      if depth' == 0 && start.Some? {
        emitted := [src[start.value..i + 1]];
        start' := None;
      }
    }
  }

  method SplitTopLevelTuples(valuesSrc: string) returns (tuples: seq<string>)
    ensures tuples == Tuples(valuesSrc, 0, None)
  {
    tuples := [];
    var depth := 0;
    var start: Option<nat> := None;
    ghost var goal := Tuples(valuesSrc, 0, None);
    assert valuesSrc[0..] == valuesSrc && [] + goal == goal;
    for i := 0 to |valuesSrc|
      invariant start.Some? ==> start.value <= i
      invariant goal == tuples + Tuples(valuesSrc[i..], depth, Reading(valuesSrc, start, i))
    {
      ghost var s, open := valuesSrc[i..], Reading(valuesSrc, start, i);
      TuplesNext(s, depth, open, tuples, valuesSrc[i + 1..]);
      var emitted;
      depth, start, emitted := TupleTurn(valuesSrc, i, depth, start);
      tuples := tuples + emitted;
    }
    assert tuples + [] == tuples;
  }

  function Reading(s: string, start: Option<nat>, i: nat): Option<string>
    requires i <= |s| && (start.Some? ==> start.value <= i)
  {
    if start.Some? then Some(s[start.value..i]) else None
  }

  // -- Shape of a tuple -----------------------------------------------------

  /** Depth after s, entered at depth d, unless it drops to zero on the way. */
  function RunIn(s: string, d: nat): Option<nat> {
    if d == 0 then None
    else if s == "" then Some(d)
    else RunIn(s[1..], if s[0] == '(' then d + 1 else if s[0] == ')' then d - 1 else d)
  }

  predicate IsPartial(o: string, d: nat) {
    o != "" && o[0] == '(' && RunIn(o[1..], 1) == Some(d)
  }

  /** An opening parenthesis up to the closing one that matches it. */
  predicate IsTuple(t: string) {
    t != "" && t[|t| - 1] == ')' && IsPartial(t[..|t| - 1], 1)
  }

  lemma {:induction false} RunInAppend(s: string, c: char, d: nat)
    ensures RunIn(s + [c], d) ==
            if RunIn(s, d).None? then None else RunIn([c], RunIn(s, d).value)
  {
    if d != 0 && s != "" {
      assert (s + [c])[1..] == s[1..] + [c];
      RunInAppend(s[1..], c, if s[0] == '(' then d + 1 else if s[0] == ')' then d - 1 else d);
    }
  }

  /** What is being read is the start of a tuple at the current depth. */
  predicate Consistent(depth: int, open: Option<string>) {
    open.Some? ==> depth > 0 && IsPartial(open.value, depth)
  }

  lemma ScanKeepsConsistent(c: char, depth: int, open: Option<string>)
    requires Consistent(depth, open)
    ensures var st := Scan(c, depth, open);
      Consistent(st.depth, st.open) && forall t :: t in st.emitted ==> IsTuple(t)
  {
    if open.Some? {
      var o := open.value;
      assert (o + [c])[1..] == o[1..] + [c];
      RunInAppend(o[1..], c, 1);
      assert (o + [c])[..|o + [c]| - 1] == o;
      assert RunIn([c], depth) == RunIn("", if c == '(' then depth + 1 else if c == ')' then depth - 1 else depth);
    }
  }

  lemma {:induction false} TuplesAreTuples(s: string, depth: int, open: Option<string>)
    requires Consistent(depth, open)
    ensures forall t :: t in Tuples(s, depth, open) ==> IsTuple(t)
  {
    if s != "" {
      ScanKeepsConsistent(s[0], depth, open);
      TuplesAreTuples(s[1..], Scan(s[0], depth, open).depth, Scan(s[0], depth, open).open);
    }
  }

  // -- Counting opening parentheses -----------------------------------------

  function Opens(s: string): nat {
    if s == "" then 0 else (if s[0] == '(' then 1 else 0) + Opens(s[1..])
  }

  lemma {:induction false} OpensConcat(a: string, b: string)
    ensures Opens(a + b) == Opens(a) + Opens(b)
  {
    if a == "" {
      assert a + b == b;
    } else {
      assert (a + b)[1..] == a[1..] + b;
      OpensConcat(a[1..], b);
    }
  }

  function SumOpens(ts: seq<string>): nat {
    if ts == [] then 0 else Opens(ts[0]) + SumOpens(ts[1..])
  }

  function OpenText(open: Option<string>): string {
    if open.Some? then open.value else ""
  }

  /** Tuples and the text after them share no opening parenthesis. */
  lemma {:induction false} TuplesAreDisjoint(s: string, depth: int, open: Option<string>)
    ensures Tail(s, depth, open).Some? <==> Tuples(s, depth, open) != []
    ensures SumOpens(Tuples(s, depth, open)) + Opens(OpenText(Tail(s, depth, open))) <= Opens(OpenText(open)) + Opens(s)
  {
    if s != "" {
      var st := Scan(s[0], depth, open);
      TuplesAreDisjoint(s[1..], st.depth, st.open);
      OpensConcat(OpenText(open), [s[0]]);
      assert Opens([s[0]]) == Opens("") + if s[0] == '(' then 1 else 0;
      var more := Tuples(s[1..], st.depth, st.open);
      if st.emitted == [] {
        assert st.emitted + more == more;
      } else {
        assert (st.emitted + more)[1..] == more;
      }
    }
  }

  /** The text dropped by one step: what was open and c, less what is open afterwards. */
  function Passed(c: char, depth: int, open: Option<string>): (x: string)
    requires Consistent(depth, open)
    ensures OpenText(open) + [c] == x + OpenText(Scan(c, depth, open).open)
  {
    if Scan(c, depth, open).open.Some? then "" else OpenText(open) + [c]
  }

  lemma Regroup(x: string, o: string, s: string, b: string, r: string)
    requires o + s == b + r
    ensures (x + o) + s == (x + b) + r
  {
    assert (x + o) + s == x + (o + s);
    assert (x + b) + r == x + (b + r);
  }

  lemma PassedText(s: string, o: string, x: string, o': string, b: string, r: string)
    requires s != "" && o + [s[0]] == x + o' && o' + s[1..] == b + r
    ensures o + s == (x + b) + r
  {
    assert o + s == (o + [s[0]]) + s[1..];
    Regroup(x, o', s[1..], b, r);
  }

  /** Nothing is emitted later: the token just emitted is the last one. */
  lemma OnlyTuple(s: string, depth: int, open: Option<string>, rest: string)
    requires s != "" && Consistent(depth, open) && Tuples(s, depth, open) != [] && rest == s[1..]
    requires var st := Scan(s[0], depth, open); Tuples(rest, st.depth, st.open) == [] && Tail(rest, st.depth, st.open).None?
    ensures Tail(s, depth, open) == Some(rest)
    ensures var ts := Tuples(s, depth, open); OpenText(open) + s == "" + (ts[|ts| - 1] + rest)
  {
    var ts := Tuples(s, depth, open);
    assert OpenText(open) + s == (OpenText(open) + [s[0]]) + rest;
    assert "" + (ts[|ts| - 1] + rest) == ts[|ts| - 1] + rest;
  }

  lemma LaterTuple(s: string, depth: int, open: Option<string>, rest: string)
    requires s != "" && rest == s[1..]
    requires var st := Scan(s[0], depth, open); Tuples(rest, st.depth, st.open) != [] && Tail(rest, st.depth, st.open).Some?
    ensures var st := Scan(s[0], depth, open); var ts, more := Tuples(s, depth, open), Tuples(rest, st.depth, st.open);
      ts != [] && ts[|ts| - 1] == more[|more| - 1] && Tail(s, depth, open) == Tail(rest, st.depth, st.open)
  {}

  /** The last tuple sits right before the tail. */
  lemma {:induction false} LastTuple(s: string, depth: int, open: Option<string>) returns (before: string)
    requires Consistent(depth, open) && Tuples(s, depth, open) != []
    ensures Tail(s, depth, open).Some?
    ensures var ts := Tuples(s, depth, open);
      OpenText(open) + s == before + (ts[|ts| - 1] + Tail(s, depth, open).value)
  {
    var st, rest := Scan(s[0], depth, open), s[1..];
    var more := Tuples(rest, st.depth, st.open);
    TuplesAreDisjoint(rest, st.depth, st.open);
    if more == [] {
      before := "";
      OnlyTuple(s, depth, open, rest);
    } else {
      LaterTuple(s, depth, open, rest);
      ScanKeepsConsistent(s[0], depth, open);
      var x := Passed(s[0], depth, open);
      before := LastTuple(rest, st.depth, st.open);
      PassedText(s, OpenText(open), x, OpenText(st.open), before, more[|more| - 1] + Tail(rest, st.depth, st.open).value);
      before := x + before;
    }
  }

  /** Tuples with the text in front of each. */
  function Weave(gaps: seq<string>, ts: seq<string>): string
    requires |gaps| == |ts|
  {
    if ts == [] then "" else gaps[0] + (ts[0] + Weave(gaps[1..], ts[1..]))
  }

  /** The text in front of each tuple. */
  function Gaps(s: string, depth: int, open: Option<string>): (gaps: seq<string>)
    ensures |gaps| == |Tuples(s, depth, open)|
  {
    if s == "" then [] else
      var st := Scan(s[0], depth, open);
      var gaps := Gaps(s[1..], st.depth, st.open);
      if st.emitted != [] then [""] + gaps
      else if gaps == [] || st.open.Some? then gaps
      else [[s[0]] + gaps[0]] + gaps[1..]
  }

  lemma WeaveMore(x: string, gaps: seq<string>, ts: seq<string>)
    requires |gaps| == |ts| && ts != []
    ensures Weave([x + gaps[0]] + gaps[1..], ts) == x + Weave(gaps, ts)
  {
    var more := [x + gaps[0]] + gaps[1..];
    assert more[1..] == gaps[1..];
    Assoc(x, gaps[0], ts[0] + Weave(gaps[1..], ts[1..]));
  }

  lemma WeaveFirst(t: string, gaps: seq<string>, ts: seq<string>)
    requires |gaps| == |ts|
    ensures Weave([""] + gaps, [t] + ts) == t + Weave(gaps, ts)
  {
    assert ([""] + gaps)[1..] == gaps && ([t] + ts)[1..] == ts;
    assert "" + (t + Weave(gaps, ts)) == t + Weave(gaps, ts);
  }

  /** What text is: the tuples where they stand, and the tail. */
  predicate Woven(text: string, gaps: seq<string>, ts: seq<string>, tail: Option<string>) {
    ts != [] ==> |gaps| == |ts| && tail.Some? && text == Weave(gaps, ts) + tail.value
  }

  lemma WovenFirst(now: string, rest: string, gaps: seq<string>, ts: seq<string>, tail: Option<string>)
    requires |gaps| == |ts| && Woven(rest, gaps, ts, tail) && (ts == [] ==> tail.None?)
    ensures Woven(now + rest, [""] + gaps, [now] + ts, if tail.Some? then tail else Some(rest))
  {
    WeaveFirst(now, gaps, ts);
    if ts == [] {
      assert Weave(gaps, ts) == "" && now + "" == now;
    } else {
      Assoc(now, Weave(gaps, ts), tail.value);
    }
  }

  lemma WovenMore(x: string, text: string, gaps: seq<string>, ts: seq<string>, tail: Option<string>)
    requires ts != [] && |gaps| == |ts| && Woven(text, gaps, ts, tail)
    ensures Woven(x + text, [x + gaps[0]] + gaps[1..], ts, tail)
  {
    WeaveMore(x, gaps, ts);
    Assoc(x, Weave(gaps, ts), tail.value);
  }

  lemma OneStepText(s: string, open: Option<string>)
    requires s != ""
    ensures OpenText(open) + s == (OpenText(open) + [s[0]]) + s[1..]
  {
    assert s == [s[0]] + s[1..];
    Assoc(OpenText(open), [s[0]], s[1..]);
  }

  lemma StepWoven(
    s: string, open: Option<string>, st: Step, rest: string, gaps: seq<string>, more: seq<string>, tail: Option<string>
  )
    requires s != "" && rest == s[1..] && |gaps| == |more| && Woven(OpenText(st.open) + rest, gaps, more, tail)
    requires st.open.Some? ==> OpenText(open) + [s[0]] == OpenText(st.open)
    requires st.open.None? ==> open.None?
    ensures Woven(OpenText(open) + s, if gaps == [] || st.open.Some? then gaps else [[s[0]] + gaps[0]] + gaps[1..], more, tail)
  {
    OneStepText(s, open);
    if st.open.None? && gaps != [] {
      assert "" + rest == rest && "" + [s[0]] == [s[0]];
      WovenMore([s[0]], rest, gaps, more, tail);
    }
  }

  lemma EmitWoven(s: string, open: Option<string>, rest: string, gaps: seq<string>, more: seq<string>, tail: Option<string>)
    requires s != "" && rest == s[1..] && |gaps| == |more| && Woven(rest, gaps, more, tail) && (more == [] ==> tail.None?)
    ensures Woven(OpenText(open) + s, [""] + gaps, [OpenText(open) + [s[0]]] + more, if tail.Some? then tail else Some(rest))
  {
    OneStepText(s, open);
    WovenFirst(OpenText(open) + [s[0]], rest, gaps, more, tail);
  }

  /** What one step of the scan emits and leaves open. */
  lemma StepShape(c: char, depth: int, open: Option<string>)
    requires Consistent(depth, open)
    ensures var st := Scan(c, depth, open);
      && (st.emitted != [] ==> st.emitted == [OpenText(open) + [c]] && st.open.None?)
      && (st.emitted == [] ==> (st.open.Some? ==> OpenText(open) + [c] == OpenText(st.open)) && (st.open.None? ==> open.None?))
  {}

  /** The tuples stand in the text in order and side by side, and the tail follows the last one. */
  lemma {:induction false} TuplesInPlace(s: string, depth: int, open: Option<string>)
    requires Consistent(depth, open)
    ensures Woven(OpenText(open) + s, Gaps(s, depth, open), Tuples(s, depth, open), Tail(s, depth, open))
  {
    if s != "" {
      var st, rest := Scan(s[0], depth, open), s[1..];
      ScanKeepsConsistent(s[0], depth, open);
      StepShape(s[0], depth, open);
      TuplesInPlace(rest, st.depth, st.open);
      TuplesAreDisjoint(rest, st.depth, st.open);
      var gaps, more, tail := Gaps(rest, st.depth, st.open), Tuples(rest, st.depth, st.open), Tail(rest, st.depth, st.open);
      if st.emitted != [] {
        assert "" + rest == rest;
        EmitWoven(s, open, rest, gaps, more, tail);
      } else {
        assert [] + more == more;
        StepWoven(s, open, st, rest, gaps, more, tail);
      }
    }
  }

  // -- Taking apart and rebuilding ------------------------------------------

  /** Greatest index at most i where sub occurs, or -1. */
  function RFind(text: string, sub: string, i: int): int
    requires i <= |text|
    decreases i + 1
  {
    if i < 0 then -1 else if At(text, i, sub) then i else RFind(text, sub, i - 1)
  }

  lemma {:induction false} RFindIsLast(text: string, sub: string, i: int, k: nat)
    requires k <= i <= |text| && At(text, k, sub)
    ensures k <= RFind(text, sub, i) <= i && At(text, RFind(text, sub, i), sub)
  {
    if !At(text, i, sub) { RFindIsLast(text, sub, i - 1, k); }
  }

  lemma LastTupleIsFound(rest: string)
    requires Tuples(rest, 0, None) != []
    ensures Tail(rest, 0, None).Some?
    ensures var ts := Tuples(rest, 0, None);
            var t, tail := ts[|ts| - 1], Tail(rest, 0, None).value;
            var k := RFind(rest, t, |rest|);
            |rest| - |tail| - |t| <= k && k >= 0 && k + |t| <= |rest|
            && |tail| <= |rest| && rest[|rest| - |tail|..] == tail
  {
    var before := LastTuple(rest, 0, None);
    var ts := Tuples(rest, 0, None);
    assert rest == OpenText(None) + rest;
    StandsAt(rest, before, ts[|ts| - 1], Tail(rest, 0, None).value);
    RFindIsLast(rest, ts[|ts| - 1], |rest|, |before|);
  }

  lemma StandsAt(rest: string, before: string, t: string, tail: string)
    requires rest == before + (t + tail)
    ensures At(rest, |before|, t) && |tail| <= |rest| && rest[|rest| - |tail|..] == tail && |rest| - |tail| - |t| == |before|
  {}

  /** The text behind the last occurrence of the last tuple. */
  function Suffix(rest: string): (suffix: string)
    requires Tuples(rest, 0, None) != []
    ensures |suffix| <= |rest| && rest[|rest| - |suffix|..] == suffix
  {
    var tuples := Tuples(rest, 0, None);
    var lastTuple := tuples[|tuples| - 1];
    LastTupleIsFound(rest);
    rest[RFind(rest, lastTuple, |rest|) + |lastTuple|..]
  }

  function ParseValues(sql: string): (p: Option<Insert>)
    ensures p.Some? ==> p.value.prefix <= sql && p.value.tuples != []
  {
    var found := FindValues(sql, 0);
    if found.None? then None else
      FindValuesInside(sql);
      var rest := sql[found.value..];
      var tuples := Tuples(rest, 0, None);
      if tuples == [] then None else Some(Insert(sql[..found.value], tuples, Suffix(rest)))
  }

  function Rebuild(p: Insert): string {
    p.prefix + " " + Join(", ", p.tuples) + p.suffix
  }

  function Without<T>(s: seq<T>, i: nat): seq<T>
    requires i < |s|
  {
    s[..i] + s[i + 1..]
  }

  lemma {:induction false} SumOpensWithout(ts: seq<string>, i: nat)
    requires i < |ts|
    ensures SumOpens(ts) == SumOpens(Without(ts, i)) + Opens(ts[i])
  {
    if i == 0 {
      assert Without(ts, 0) == ts[1..];
    } else {
      SumOpensWithout(ts[1..], i - 1);
      assert Without(ts, i)[1..] == Without(ts[1..], i - 1);
    }
  }

  lemma {:induction false} JoinOpens(ts: seq<string>)
    ensures Opens(Join(", ", ts)) == SumOpens(ts)
  {
    if |ts| == 1 {
      assert ts[1..] == [];
    } else if |ts| > 1 {
      JoinOpens(ts[1..]);
      OpensConcat(ts[0] + ", ", Join(", ", ts[1..]));
      OpensConcat(ts[0], ", ");
      assert ", "[1..] == " " && " "[1..] == "";
    }
  }

  lemma RebuildOpens(p: Insert)
    ensures Opens(Rebuild(p)) == Opens(p.prefix) + SumOpens(p.tuples) + Opens(p.suffix)
  {
    OpensConcat(p.prefix + " " + Join(", ", p.tuples), p.suffix);
    OpensConcat(p.prefix + " ", Join(", ", p.tuples));
    OpensConcat(p.prefix, " ");
    assert " "[1..] == "";
    JoinOpens(p.tuples);
  }

  /** Every parsed tuple is one, and the parts hold no more opening parentheses than the statement. */
  lemma ParsedParts(sql: string)
    requires ParseValues(sql).Some?
    ensures var p := ParseValues(sql).value;
      && (forall t :: t in p.tuples ==> IsTuple(t))
      && Opens(p.prefix) + SumOpens(p.tuples) + Opens(p.suffix) <= Opens(sql)
  {
    var p := ParseValues(sql).value;
    var e := FindValues(sql, 0).value;
    FindValuesInside(sql);
    var rest := sql[e..];
    assert sql == p.prefix + rest;
    OpensConcat(p.prefix, rest);
    TuplesAreTuples(rest, 0, None);
    TuplesAreDisjoint(rest, 0, None);
    LastTupleIsFound(rest);
    var tail := Tail(rest, 0, None).value;
    var cut := |tail| - |p.suffix|;
    assert tail == tail[..cut] + p.suffix;
    OpensConcat(tail[..cut], p.suffix);
  }

  /** Dropping a tuple lowers the number of opening parentheses, on every statement. */
  lemma DroppingShrinks(sql: string, ti: nat)
    requires ParseValues(sql).Some? && ti < |ParseValues(sql).value.tuples|
    ensures var p := ParseValues(sql).value; Opens(Rebuild(p.(tuples := Without(p.tuples, ti)))) < Opens(sql)
  {
    var p := ParseValues(sql).value;
    ParsedParts(sql);
    RebuildOpens(p.(tuples := Without(p.tuples, ti)));
    SumOpensWithout(p.tuples, ti);
    assert IsTuple(p.tuples[ti]);
  }
}
