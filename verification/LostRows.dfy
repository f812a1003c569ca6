/**
 Text that disappears without being tried. The splitter counts parentheses inside
 string literals, so a literal that holds one hides the rows behind it; and it takes
 every parenthesis behind VALUES for a row, so a clause between two is dropped.
 */
module LostRows {
  import opened Text
  import opened InsertValues
  import opened InsertRoundTrip
  import opened DvmShrink

  // -- Prefixes -------------------------------------------------------------

  /** Text that cannot hold the keyword. */
  predicate Header(header: string) {
    header != "" && !IsWord(header[|header| - 1]) && 'v' !in header && 'V' !in header
  }

  /** A header, up to the keyword, is a prefix. */
  lemma {:induction false} HeaderEnds(header: string, i: nat)
    requires Header(header) && i <= |header|
    ensures FindValues(header + "VALUES", i) == Some(|header + "VALUES"|)
    decreases |header| - i
  {
    var s := header + "VALUES";
    if i == |header| {
      assert s[i..i + 6] == "VALUES" && Upper("VALUES") == "VALUES";
    } else {
      assert s[i] == header[i] && header[i] in header;
      NotValuesHere(s, i);
      HeaderEnds(header, i + 1);
    }
  }

  lemma NotValuesHere(s: string, i: nat)
    requires i < |s| && s[i] != 'v' && s[i] != 'V'
    ensures !ValuesAt(s, i)
  {
    if i + 6 <= |s| {
      assert Upper(s[i..i + 6])[0] == UpperChar(s[i]);
    }
  }

  // -- Text without parentheses, and rows -----------------------------------

  predicate Flat(x: string) {
    '(' !in x && ')' !in x
  }

  function Row(x: string): string {
    "(" + x + ")"
  }

  lemma {:induction false} FlatRun(x: string, d: nat)
    requires Flat(x) && d > 0
    ensures RunIn(x, d) == Some(d)
  {
    if x != "" {
      assert x[0] in x;
      FlatRun(x[1..], d);
    }
  }

  lemma {:induction false} RunInConcat(x: string, y: string, d: nat)
    ensures RunIn(x + y, d) == if RunIn(x, d).None? then None else RunIn(y, RunIn(x, d).value)
    decreases |x|
  {
    if x == "" {
      assert x + y == y;
    } else if d != 0 {
      assert (x + y)[1..] == x[1..] + y;
      RunInConcat(x[1..], y, if x[0] == '(' then d + 1 else if x[0] == ')' then d - 1 else d);
    }
  }

  lemma RowIsTuple(x: string)
    requires Flat(x)
    ensures IsTuple(Row(x))
  {
    FlatRun(x, 1);
    var r := Row(x);
    assert r[..|r| - 1] == "(" + x && ("(" + x)[1..] == x;
  }

  /** A row passed at any depth above zero leaves the depth as it was. */
  lemma RowRun(x: string, d: nat)
    requires Flat(x) && d > 0
    ensures RunIn(Row(x), d) == Some(d)
  {
    RunInConcat("(", x + ")", d);
    RunInConcat(x, ")", d + 1);
    FlatRun(x, d + 1);
    assert "("[1..] == "" && ")"[1..] == "";
    assert Row(x) == "(" + (x + ")");
  }

  // -- An open parenthesis hides what follows -------------------------------

  lemma {:induction false} NeverCloses(x: string, d: nat, open: string)
    requires RunIn(x, d).Some?
    ensures Tuples(x, d, Some(open)) == []
  {
    if x != "" {
      var st := Scan(x[0], d, Some(open));
      NeverCloses(x[1..], st.depth, st.open.value);
    }
  }

  lemma {:induction false} SkipFlat(x: string, rest: string)
    requires Flat(x)
    ensures Tuples(x + rest, 0, None) == Tuples(rest, 0, None)
  {
    if x == "" {
      assert x + rest == rest;
    } else {
      assert x[0] in x && (x + rest)[1..] == x[1..] + rest;
      SkipFlat(x[1..], rest);
    }
  }

  lemma HiddenRows(gap: string, x: string)
    requires Flat(gap) && RunIn(x, 1).Some?
    ensures Tuples(gap + ("(" + x), 0, None) == []
  {
    SkipFlat(gap, "(" + x);
    NeverCloses(x, 1, "(");
    assert ("(" + x)[1..] == x;
  }

  /** A row whose literal holds an open parenthesis. */
  function OpenRow(x: string, y: string): string {
    "(" + x + "(" + y + ")"
  }

  lemma OpenRowRun(x: string, y: string, tail: string)
    requires Flat(x) && Flat(y) && RunIn(tail, 1).Some?
    ensures RunIn(x + ("(" + (y + (")" + tail))), 1).Some?
  {
    FlatRun(x, 1);
    FlatRun(y, 2);
    RunInConcat(x, "(" + (y + (")" + tail)), 1);
    RunInConcat("(", y + (")" + tail), 1);
    RunInConcat(y, ")" + tail, 2);
    RunInConcat(")", tail, 2);
    assert "("[1..] == "" && ")"[1..] == "";
  }

  lemma OpenRowText(x: string, y: string, tail: string)
    ensures OpenRow(x, y) + tail == "(" + (x + ("(" + (y + (")" + tail))))
  {}

  /** Behind such a row the other rows are never seen. */
  lemma RowsBehindAreHidden(x: string, y: string, b: string, e: string)
    requires Flat(x) && Flat(y) && Flat(b) && Flat(e)
    ensures Tuples(", " + (OpenRow(x, y) + (", " + (Row(b) + (", " + Row(e))))), 0, None) == []
  {
    var tail := ", " + (Row(b) + (", " + Row(e)));
    TailRun(b, e);
    OpenRowRun(x, y, tail);
    HiddenRows(", ", x + ("(" + (y + (")" + tail))));
    OpenRowText(x, y, tail);
  }

  lemma TailRun(b: string, e: string)
    requires Flat(b) && Flat(e)
    ensures RunIn(", " + (Row(b) + (", " + Row(e))), 1) == Some(1)
  {
    FlatRun(", ", 1);
    RowRun(b, 1);
    RowRun(e, 1);
    RunInConcat(", ", Row(e), 1);
    RunInConcat(Row(b), ", " + Row(e), 1);
    RunInConcat(", ", Row(b) + (", " + Row(e)), 1);
  }

  /** A row does not occur behind a different one. */
  lemma OtherRow(b: string, e: string)
    requires Flat(b) && Flat(e) && b != e
    ensures !Contains(", " + Row(e), Row(b))
  {
    var text, t := ", " + Row(e), Row(b);
    forall k: nat ensures !At(text, k, t) {
      if At(text, k, t) {
        PlaceOfRow(e, b, k);
        assert false;
      }
    }
  }

  lemma PlaceOfRow(e: string, b: string, k: nat)
    requires Flat(b) && Flat(e) && At(", " + Row(e), k, Row(b))
    ensures b == e
  {
    var text, t := ", " + Row(e), Row(b);
    var slice := text[k..k + |t|];
    assert slice[0] == text[k] == '(' && slice[|t| - 1] == text[k + |t| - 1] == ')';
    assert forall i :: 3 <= i < 3 + |e| ==> text[i] == e[i - 3] && e[i - 3] in e;
    assert k == 2 && |t| == |e| + 2;
    assert b == t[1..|t| - 1] == slice[1..|t| - 1];
    assert slice[1..|t| - 1] == text[3..3 + |e|] == e;
  }

  // -- The statement --------------------------------------------------------

  /** Parsing keeps only what stands behind the last copy of the last tuple it saw. */
  lemma CopyCutsText(prefix: string, ts: seq<string>, u: string, v: string)
    requires ts != [] && WellFormed(Insert(prefix, ts, u + (ts[|ts| - 1] + v)))
    requires Tuples(u + (ts[|ts| - 1] + v), 0, None) == [] && !Contains(v, ts[|ts| - 1])
    ensures ParseValues(Rebuild(Insert(prefix, ts, u + (ts[|ts| - 1] + v)))) == Some(Insert(prefix, ts, v))
  {
    var t := ts[|ts| - 1];
    var p := Insert(prefix, ts, u + (t + v));
    var rest := RebuiltRest(p);
    FindPrefix(prefix, rest, 0);
    assert Rebuild(p)[..|prefix|] == prefix && Rebuild(p)[|prefix|..] == rest;
    assert ts + [] == ts;
    var x := JoinEnds(ts);
    RestText(prefix, Join(", ", ts), x, t, u, v, rest);
    SuffixIff(rest, " " + x + (t + u), t, v);
  }

  lemma RestText(prefix: string, joined: string, x: string, t: string, u: string, v: string, rest: string)
    requires joined == x + t && prefix + " " + joined + (u + (t + v)) == prefix + rest
    ensures rest == " " + x + (t + u) + (t + v)
  {
    var all := " " + joined + (u + (t + v));
    assert prefix + " " + joined + (u + (t + v)) == prefix + all;
    assert (prefix + all)[|prefix|..] == all && (prefix + rest)[|prefix|..] == rest;
  }

  /** Five rows, the third with an open parenthesis in a literal, the second and the fourth alike. */
  function FiveRows(header: string, a: string, b: string, x: string, y: string, e: string): string {
    Rebuild(Insert(header + "VALUES", [Row(a), Row(b), OpenRow(x, y), Row(b), Row(e)], ""))
  }

  lemma FiveRowsText(prefix: string, a: string, b: string, c: string, e: string)
    ensures Rebuild(Insert(prefix, [a, b, c, b, e], "")) ==
            Rebuild(Insert(prefix, [a, b], ", " + (c + ", ") + (b + (", " + e))))
  {
    assert [a, b, c, b, e][1..] == [b, c, b, e] && [b, c, b, e][1..] == [c, b, e];
    assert [c, b, e][1..] == [b, e] && [b, e][1..] == [e] && [a, b][1..] == [b];
    assert Join(", ", [b, e]) == b + ", " + e;
    assert Join(", ", [c, b, e]) == c + ", " + Join(", ", [b, e]);
    assert Join(", ", [b, c, b, e]) == b + ", " + Join(", ", [c, b, e]);
    assert Join(", ", [a, b, c, b, e]) == a + ", " + Join(", ", [b, c, b, e]);
    assert Join(", ", [a, b]) == a + ", " + b;
  }

  /** Only two of the five rows are seen, and only the fifth is kept as text. */
  lemma FiveRowsParse(header: string, a: string, b: string, x: string, y: string, e: string)
    requires Header(header)
    requires Flat(a) && Flat(b) && Flat(x) && Flat(y) && Flat(e) && b != e
    ensures ParseValues(FiveRows(header, a, b, x, y, e)) ==
            Some(Insert(header + "VALUES", [Row(a), Row(b)], ", " + Row(e)))
  {
    var prefix, ts, u, v := header + "VALUES", [Row(a), Row(b)], ", " + (OpenRow(x, y) + ", "), ", " + Row(e);
    HeaderEnds(header, 0);
    RowIsTuple(a);
    RowIsTuple(b);
    RowsBehindAreHidden(x, y, b, e);
    assert u + (Row(b) + v) == ", " + (OpenRow(x, y) + (", " + (Row(b) + v)));
    OtherRow(b, e);
    CopyCutsText(prefix, ts, u, v);
    FiveRowsText(prefix, Row(a), Row(b), OpenRow(x, y), Row(e));
  }

  /**
   Dropping the first of the five rows leaves the second and the fifth: the third
   and the fourth are gone without having been tried, and the fifth is now a row.
   */
  lemma DropLosesUntriedRows<L, M>(s: Scenario<L, M>, header: string, a: string, b: string, x: string, y: string, e: string)
    requires Header(header)
    requires Flat(a) && Flat(b) && Flat(x) && Flat(y) && Flat(e) && b != e
    requires s.initialData == [FiveRows(header, a, b, x, y, e)]
    ensures CanDropTuple(s, 0, 0)
    ensures DropTuple(s, 0, 0).initialData == [Rebuild(Insert(header + "VALUES", [Row(b), Row(e)], ""))]
  {
    FiveRowsParse(header, a, b, x, y, e);
    var p := ParseValues(s.initialData[0]).value;
    assert Without(p.tuples, 0) == [Row(b)];
    TwoRowsText(header + "VALUES", Row(b), Row(e));
  }

  lemma TwoRowsText(prefix: string, b: string, e: string)
    ensures Rebuild(Insert(prefix, [b], ", " + e)) == Rebuild(Insert(prefix, [b, e], ""))
  {
    assert [b, e][1..] == [e];
    assert Join(", ", [b, e]) == b + ", " + e;
  }

  lemma FiveRowsSpelled(prefix: string, a: string, b: string, c: string, e: string)
    ensures Rebuild(Insert(prefix, [a, b, c, b, e], "")) ==
            prefix + " " + (a + ", " + b) + (", " + (c + ", ") + (b + (", " + e)))
  {
    FiveRowsText(prefix, a, b, c, e);
    assert [a, b][1..] == [b] && Join(", ", [a, b]) == a + ", " + b;
  }

  lemma SampleRows()
    ensures "INSERT INTO t " + "VALUES" == "INSERT INTO t VALUES"
    ensures Row("1,'a'") == "(1,'a')" && Row("2,'b'") == "(2,'b')" && Row("5,'e'") == "(5,'e')"
    ensures OpenRow("3,'", "'") == "(3,'(')"
  {
    assert "(" + "3,'" + "(" == "(3,'(" && "(3,'(" + "'" + ")" == "(3,'(')";
  }

  /** Such a statement is ordinary SQL: one string literal holds a parenthesis. */
  lemma QuotedParenthesis()
    ensures FiveRows("INSERT INTO t ", "1,'a'", "2,'b'", "3,'", "'", "5,'e'") ==
      "INSERT INTO t VALUES" + " " + ("(1,'a')" + ", " + "(2,'b')") + (", " + ("(3,'(')" + ", ") + ("(2,'b')" + (", " + "(5,'e')")))
  {
    SampleRows();
    FiveRowsSpelled("INSERT INTO t VALUES", "(1,'a')", "(2,'b')", "(3,'(')", "(5,'e')");
  }

  // -- A clause behind the rows ---------------------------------------------

  lemma {:induction false} FlatHasNoOpens(x: string)
    requires Flat(x)
    ensures Opens(x) == 0
  {
    if x != "" {
      assert x[0] in x && Flat(x[1..]);
      FlatHasNoOpens(x[1..]);
    }
  }

  /** Two rows, a clause g, a parenthesis and more text. */
  function ClauseRest(a: string, b: string, g: string, c: string, tail: string): string {
    " " + (Row(a) + (", " + (Row(b) + (g + (Row(c) + tail)))))
  }

  lemma ClauseTuples(a: string, b: string, g: string, c: string, tail: string)
    requires Flat(a) && Flat(b) && Flat(g) && Flat(c) && Flat(tail)
    ensures Tuples(ClauseRest(a, b, g, c, tail), 0, None) == [Row(a), Row(b), Row(c)]
  {
    RowIsTuple(a);
    RowIsTuple(b);
    RowIsTuple(c);
    FlatHasNoOpens(tail);
    NoOpensNoTuples(tail, 0);
    ReadOneTuple(Row(c), tail);
    SkipFlat(g, Row(c) + tail);
    ReadOneTuple(Row(b), g + (Row(c) + tail));
    SkipSeparator(Row(b) + (g + (Row(c) + tail)));
    ReadOneTuple(Row(a), ", " + (Row(b) + (g + (Row(c) + tail))));
    SkipSeparator(Row(a) + (", " + (Row(b) + (g + (Row(c) + tail)))));
    assert [Row(a)] + ([Row(b)] + ([Row(c)] + [])) == [Row(a), Row(b), Row(c)];
  }

  lemma ClauseSuffix(a: string, b: string, g: string, c: string, tail: string)
    requires Flat(a) && Flat(b) && Flat(g) && Flat(c) && Flat(tail)
    ensures Tuples(ClauseRest(a, b, g, c, tail), 0, None) != [] && Suffix(ClauseRest(a, b, g, c, tail)) == tail
  {
    var x := " " + (Row(a) + (", " + (Row(b) + g)));
    ClauseTuples(a, b, g, c, tail);
    RowIsTuple(c);
    FlatHasNoOpens(tail);
    NoOpensHarmless(tail, Row(c));
    ClauseText(Row(a), Row(b), g, Row(c) + tail);
    SuffixIff(ClauseRest(a, b, g, c, tail), x, Row(c), tail);
  }

  lemma ClauseText(a: string, b: string, g: string, y: string)
    ensures " " + (a + (", " + (b + (g + y)))) == (" " + (a + (", " + (b + g)))) + y
  {}

  /** The clause is read as space between rows, its parenthesis as a row. */
  lemma ClauseParse(header: string, a: string, b: string, g: string, c: string, tail: string)
    requires Header(header) && Flat(a) && Flat(b) && Flat(g) && Flat(c) && Flat(tail)
    ensures ParseValues(header + "VALUES" + ClauseRest(a, b, g, c, tail)) ==
            Some(Insert(header + "VALUES", [Row(a), Row(b), Row(c)], tail))
  {
    var prefix, rest := header + "VALUES", ClauseRest(a, b, g, c, tail);
    HeaderEnds(header, 0);
    FindPrefix(prefix, rest, 0);
    assert (prefix + rest)[..|prefix|] == prefix && (prefix + rest)[|prefix|..] == rest;
    ClauseTuples(a, b, g, c, tail);
    ClauseSuffix(a, b, g, c, tail);
  }

  /** Dropping the first row drops the clause as well, and its parenthesis is now a row. */
  lemma DropLosesClause<L, M>(s: Scenario<L, M>, header: string, a: string, b: string, g: string, c: string, tail: string)
    requires Header(header) && Flat(a) && Flat(b) && Flat(g) && Flat(c) && Flat(tail)
    requires s.initialData == [header + "VALUES" + ClauseRest(a, b, g, c, tail)]
    ensures CanDropTuple(s, 0, 0)
    ensures DropTuple(s, 0, 0).initialData == [header + "VALUES" + (" " + (Row(b) + ", " + Row(c)) + tail)]
  {
    ClauseParse(header, a, b, g, c, tail);
    var p := ParseValues(s.initialData[0]).value;
    assert Without(p.tuples, 0) == [Row(b), Row(c)];
    TwoRowsJoined(header + "VALUES", Row(b), Row(c), tail);
  }

  lemma TwoRowsJoined(prefix: string, b: string, c: string, tail: string)
    ensures Rebuild(Insert(prefix, [b, c], tail)) == prefix + (" " + (b + ", " + c) + tail)
  {
    assert [b, c][1..] == [c] && Join(", ", [b, c]) == b + ", " + c;
  }

  /** Such a statement is ordinary SQL, and every parenthesis in it is balanced. */
  lemma ConflictClause()
    ensures "INSERT INTO t " + "VALUES" + ClauseRest("1", "2", " ON CONFLICT ", "id", " DO NOTHING") ==
      "INSERT INTO t VALUES" + " (1), (2)" + " ON CONFLICT (id) DO NOTHING"
  {
    var g, c, tail := " ON CONFLICT ", "(id)", " DO NOTHING";
    assert "INSERT INTO t " + "VALUES" == "INSERT INTO t VALUES";
    assert Row("1") == "(1)" && Row("2") == "(2)" && Row("id") == c;
    assert g + c + tail == " ON CONFLICT (id) DO NOTHING";
    assert " " + ("(1)" + (", " + "(2)")) == " (1), (2)";
    ClauseText("(1)", "(2)", g, c + tail);
    ClauseParts("(1)", "(2)", g, c, tail);
  }

  lemma ClauseParts(a: string, b: string, g: string, c: string, tail: string)
    ensures " " + (a + (", " + (b + (g + (c + tail))))) == (" " + (a + (", " + b))) + (g + c + tail)
  {}
}
