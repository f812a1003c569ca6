/** Pieces of a printed parameter list, as the scanners see them. */
module SignaturePieces {
  import opened Text
  import opened Whitespace
  import opened SqlLexer
  import opened SqlScanners
  import opened SqlLaws
  import opened SqlSignature

  // -- Looking for a default in two texts, one after the other --------------

  /** No word straddles the border. */
  predicate WordCut(p: string, q: string) {
    p == "" || q == "" || !IsWord(p[|p| - 1]) || !IsWord(q[0])
  }

  function Last(p: string, prev: Option<char>): Option<char> {
    if p == "" then prev else Some(p[|p| - 1])
  }

  lemma DefaultWordAtCut(p: string, q: string)
    requires p != "" && WordCut(p, q)
    ensures DefaultWord(p + q) <==> DefaultWord(p)
  {
    var s, k := p + q, |p|;
    if k >= 7 {
      assert s[..7] == p[..7];
      assert Upper(p[..7])[6] == UpperChar(p[6]);
    } else if |s| >= 7 {
      assert Upper(s[..7])[k - 1] == UpperChar(p[k - 1]) && Upper(s[..7])[k] == UpperChar(q[0]);
    }
  }

  lemma DefaultHereAtCut(p: string, q: string, st: State, prev: Option<char>)
    requires p != "" && Cut(p, q) && WordCut(p, q)
    ensures DefaultHere(p + q, st, prev) <==> DefaultHere(p, st, prev)
  {
    StepAtCut(p, q, st);
    DefaultWordAtCut(p, q);
  }

  lemma DefaultStepAtCut(p: string, q: string, st: State, prev: Option<char>, t: string, n: nat)
    requires p != "" && Cut(p, q) && WordCut(p, q) && DefaultAt(p, st, prev).None?
    requires t == Rest(p, st) && n == Step(p, st.mode).len
    ensures DefaultAt(t, Next(p, st), Some(p[n - 1])).None?
    ensures DefaultAt(p + q, st, prev) == Shift(n, DefaultAt(t + q, Next(p, st), Some(p[n - 1])))
  {
    StepAtCut(p, q, st);
    DefaultHereAtCut(p, q, st, prev);
    assert (p + q)[n - 1] == p[n - 1];
    NoDefaultYet(p, st, prev, t, n);
    DefaultSkips(p + q, st, prev, t + q, n);
  }

  lemma DefaultSkips(s: string, st: State, prev: Option<char>, t: string, n: nat)
    requires s != "" && !DefaultHere(s, st, prev) && t == Rest(s, st) && n == Step(s, st.mode).len
    ensures DefaultAt(s, st, prev) == Shift(n, DefaultAt(t, Next(s, st), Some(s[n - 1])))
  {}

  lemma NoDefaultYet(s: string, st: State, prev: Option<char>, t: string, n: nat)
    requires s != "" && DefaultAt(s, st, prev).None? && t == Rest(s, st) && n == Step(s, st.mode).len
    ensures !DefaultHere(s, st, prev) && DefaultAt(t, Next(s, st), Some(s[n - 1])).None?
  {}

  lemma SameEnd(p: string, st: State, t: string, next: State)
    requires p != "" && t == Rest(p, st) && next == Next(p, st)
    ensures End(p, st) == End(t, next)
  {}

  lemma SameLast(p: string, t: string, n: nat, prev: Option<char>)
    requires 0 < n <= |p| && t == p[n..]
    ensures Last(p, prev) == Last(t, Some(p[n - 1])) && |p| == n + |t|
  {}

  lemma {:induction false} DefaultAtCut(p: string, q: string, st: State, prev: Option<char>)
    requires Cut(p, q) && WordCut(p, q) && DefaultAt(p, st, prev).None?
    ensures DefaultAt(p + q, st, prev) == Shift(|p|, DefaultAt(q, End(p, st), Last(p, prev)))
    decreases |p|
  {
    if p == "" {
      assert p + q == q;
    } else {
      var t, next, n := Rest(p, st), Next(p, st), Step(p, st.mode).len;
      StepAtCut(p, q, st);
      DefaultStepAtCut(p, q, st, prev, t, n);
      DefaultAtCut(t, q, next, Some(p[n - 1]));
      SameEnd(p, st, t, next);
      SameLast(p, t, n, prev);
      ShiftChain(DefaultAt(p + q, st, prev), n, DefaultAt(t + q, next, Some(p[n - 1])), |t|,
                 DefaultAt(q, End(t, next), Last(t, Some(p[n - 1]))), |p|);
    }
  }

  lemma ShiftChain(a: Option<nat>, n: nat, x: Option<nat>, k: nat, r: Option<nat>, m: nat)
    requires a == Shift(n, x) && x == Shift(k, r) && m == n + k
    ensures a == Shift(m, r)
  {}

  // -- Pieces of a printed parameter ----------------------------------------

  /** Closed in itself and without a top-level comma. */
  predicate Piece(s: string) {
    Neutral(s) && Split(s, START) == [s]
  }

  /** A piece without comments and without a default. */
  predicate Plain(s: string) {
    Piece(s) && Strip(s, Normal) == s && DefaultAt(s, START, None).None?
  }

  lemma PieceConcat(p: string, q: string)
    requires Piece(p) && Piece(q) && Cut(p, q)
    ensures Piece(p + q)
  {
    CutIsBorder(p, q, START);
    EndAtBorder(p, q, START);
    SplitAtBorder(p, q, START);
  }

  /** The character before can only rule a default out. */
  lemma DefaultForAnyPrev(s: string, prev: Option<char>)
    requires DefaultAt(s, START, None).None?
    ensures DefaultAt(s, START, prev).None?
  {}

  lemma PlainConcat(p: string, q: string)
    requires Plain(p) && Plain(q) && Cut(p, q) && WordCut(p, q)
    ensures Plain(p + q)
  {
    PieceConcat(p, q);
    CutIsBorder(p, q, START);
    StripAtBorder(p, q, START);
    DefaultAtCut(p, q, START, None);
    DefaultForAnyPrev(q, Last(p, None));
  }

  // -- Quoted names ---------------------------------------------------------

  /** The name in double quotes, inner quotes doubled. */
  function Quote(name: string): string {
    "\"" + (Doubled(name, '"') + "\"")
  }

  lemma {:induction false} DoubledCloses(name: string)
    ensures QuotedEnd(Doubled(name, '"') + "\"") == Some(|Doubled(name, '"')| + 1)
  {
    if name != "" {
      DoubledCloses(name[1..]);
      var tail := Doubled(name[1..], '"') + "\"";
      if name[0] == '"' {
        assert (Doubled(name, '"') + "\"")[2..] == tail;
      } else {
        assert (Doubled(name, '"') + "\"")[1..] == tail;
      }
    }
  }

  lemma {:induction false} QuotedEndAppend(s: string, rest: string)
    requires QuotedEnd(s) == Some(|s|) && (rest == "" || rest[0] != '"')
    ensures QuotedEnd(s + rest) == Some(|s|)
    decreases |s|
  {
    var n := if Pair(s, '"', '"') then 2 else 1;
    assert (s + rest)[n..] == s[n..] + rest;
    if |s| > n { QuotedEndAppend(s[n..], rest); }
  }

  lemma QuotedKept(s: string, n: nat)
    requires s != "" && n == Step(s, Double).len
    ensures Kept(s, Double) == s[..n]
  {
    assert s[..1] == [s[0]];
  }

  lemma QuotedNext(s: string, n: nat, t: string)
    requires s != "" && n == Step(s, Double).len && t == s[n..] && QuotedEnd(s) == Some(|s|)
    ensures if t == "" then Step(s, Double).mode == Normal else Step(s, Double).mode == Double && QuotedEnd(t) == Some(|t|)
  {
    if Pair(s, '"', '"') {
      assert t == s[2..] && QuotedEnd(s) == Shift(2, QuotedEnd(t));
    } else if s[0] == '"' {
      assert QuotedEnd(s) == Some(1);
    } else {
      assert t == s[1..] && QuotedEnd(s) == Shift(1, QuotedEnd(t));
    }
  }

  /** Behind its opening quote a quoted name is one token to every scanner. */
  lemma {:induction false} QuotedIsOneToken(s: string, prev: Option<char>)
    requires QuotedEnd(s) == Some(|s|)
    ensures Reads(s, State(Double, 0), START, s) && DefaultAt(s, State(Double, 0), prev).None?
    decreases |s|
  {
    var st, n := State(Double, 0), Step(s, Double).len;
    var t := s[n..];
    QuotedKept(s, n);
    QuotedNext(s, n, t);
    if t == "" {
      ReadsNothing(START);
    } else {
      QuotedIsOneToken(t, Some(s[n - 1]));
    }
    DefaultNext(s, st, prev, t, 0);
    ReadsToken(s, st, START, s[..n], t);
    assert s[..n] + t == s;
  }

  lemma QuoteIsPlain(name: string)
    ensures Plain(Quote(name))
  {
    var s := Doubled(name, '"') + "\"";
    DoubledCloses(name);
    QuotedIsOneToken(s, Some('"'));
    var q := Quote(name);
    assert q[0] == '"' && q[1..] == s && q[..1] == "\"";
    assert Step(q, Normal) == Move(1, Double);
    assert "\"" + s == q;
  }

  lemma DoubledStarts(name: string)
    requires name != ""
    ensures var d := Doubled(name, '"');
      d != "" && d[0] == name[0] && (name[0] != '"' ==> d[1..] == Doubled(name[1..], '"'))
  {}

  lemma DoubledQuote(rest: string)
    ensures Doubled("\"" + rest, '"') == "\"\"" + Doubled(rest, '"')
  {
    assert ("\"" + rest)[1..] == rest;
  }

  lemma SqueezeDoubledQuote(rest: string)
    requires Squeeze(Doubled(rest, '"')) == Doubled(Squeeze(rest), '"')
    ensures Squeeze("\"\"" + Doubled(rest, '"')) == Doubled("\"" + Squeeze(rest), '"')
  {
    SqueezeSolid("\"\"");
    SqueezeAppend("\"\"", Doubled(rest, '"'));
    DoubledQuote(Squeeze(rest));
  }

  lemma {:induction false} SqueezeDoubled(name: string)
    ensures Squeeze(Doubled(name, '"')) == Doubled(Squeeze(name), '"')
    decreases |name|
  {
    if name != "" {
      var rest := name[1..];
      SqueezeDoubled(rest);
      DoubledStarts(name);
      if name[0] == '"' {
        SqueezeDoubledQuote(rest);
      } else {
        if rest != "" { DoubledStarts(rest); }
        if Squeeze(name) != Squeeze(rest) {
          assert Squeeze(name)[1..] == Squeeze(rest);
        }
      }
    }
  }

  lemma SqueezeQuote(name: string)
    ensures Squeeze(Quote(name)) == Quote(Squeeze(name))
  {
    SqueezeDoubled(name);
    SqueezeAppend("\"", Doubled(name, '"') + "\"");
    SqueezeAppend(Doubled(name, '"'), "\"");
    assert Squeeze("\"") == "\"" + Squeeze("");
  }

  // -- Plain text -----------------------------------------------------------

  lemma {:induction false} CodeIsPiece(s: string)
    requires forall c :: c in s ==> !Pairing(c) && c != ',' && c != '(' && c != ')'
    ensures Piece(s) && Strip(s, Normal) == s
  {
    if s != "" {
      var t := s[1..];
      assert s[0] in s && forall c :: c in t ==> c in s;
      CodeIsPiece(t);
      CodeStep(s, t);
      ReadsToken(s, START, START, [s[0]], t);
      assert [s[0]] + t == s;
    }
  }

  lemma CodeStep(s: string, t: string)
    requires s != "" && t == s[1..] && !Pairing(s[0]) && s[0] != ',' && s[0] != '(' && s[0] != ')'
    ensures Step(s, Normal) == Move(1, Normal) && Rest(s, START) == t && Next(s, START) == START
    ensures !TopComma(s, START) && Kept(s, Normal) == [s[0]]
  {}

  lemma SpaceIsPlain()
    ensures Plain(" ")
  {
    CodeIsPiece(" ");
    assert Rest(" ", START) == "";
  }

  // -- Literals and type spellings ------------------------------------------

  /** `sql_literal`. */
  function SqlLiteral(value: string): string {
    "'" + (Doubled(value, '\'') + "'")
  }

  lemma {:induction false} LiteralCloses(value: string)
    ensures var s, st := Doubled(value, '\'') + "'", State(Single, 0);
      End(s, st) == START && NoStray(s, st) && Split(s, st) == [s]
  {
    var s, st := Doubled(value, '\'') + "'", State(Single, 0);
    if value == "" {
      assert s[1..] == "" && s[..1] + "" == s;
    } else {
      LiteralCloses(value[1..]);
      var t := Doubled(value[1..], '\'') + "'";
      var n := if value[0] == '\'' then 2 else 1;
      assert s[n..] == t && s[..n] + t == s;
      assert Step(s, Single) == Move(n, Single);
    }
  }

  /** Every literal can be a default, whatever commas, parentheses or comment marks it holds. */
  lemma LiteralIsPiece(value: string)
    ensures Piece(SqlLiteral(value))
  {
    var l, s := SqlLiteral(value), Doubled(value, '\'') + "'";
    LiteralCloses(value);
    assert l[1..] == s && l[..1] + s == l && Step(l, Normal) == Move(1, Single);
  }

  predicate TypeChar(c: char) {
    IsWord(c) || c == ' ' || c == '.' || c == '[' || c == ']'
  }

  /** The word DEFAULT in any case stands at i, with no letter, digit or underscore next to it. */
  predicate WholeDefault(t: string, i: nat) {
    && i + 7 <= |t| && SameLetters(t[i..i + 7], "DEFAULT")
    && (i == 0 || !IsWord(t[i - 1])) && (i + 7 == |t| || !IsWord(t[i + 7]))
  }

  lemma DefaultHereIff(t: string, i: nat)
    requires i < |t| && TypeChar(t[i])
    ensures DefaultHere(t[i..], START, Before(t, i)) <==> WholeDefault(t, i)
  {
    var s := t[i..];
    assert Code(s, Normal);
    if i + 7 <= |t| {
      assert s[..7] == t[i..i + 7];
      SameUpper(t[i..i + 7], "DEFAULT");
      UpperDefault();
    }
  }

  lemma UpperDefault()
    ensures Upper("DEFAULT") == "DEFAULT"
  {}

  lemma DefaultStep(t: string, i: nat)
    requires i < |t| && TypeChar(t[i])
    ensures DefaultAt(t[i..], START, Before(t, i)) ==
      if WholeDefault(t, i) then Some(0) else Shift(1, DefaultAt(t[i + 1..], START, Before(t, i + 1)))
  {
    var s := t[i..];
    assert s[1..] == t[i + 1..] && Rest(s, START) == s[1..] && Next(s, START) == START;
    DefaultHereIff(t, i);
  }

  /** r is the distance from i to the first whole word DEFAULT from there on. */
  predicate FirstWhole(t: string, i: nat, r: Option<nat>) {
    && (r.Some? ==> WholeDefault(t, i + r.value))
    && forall k :: i <= k < (if r.Some? then i + r.value else |t|) ==> !WholeDefault(t, k)
  }

  lemma FirstWholeStep(t: string, i: nat, r: Option<nat>)
    requires i < |t| && FirstWhole(t, i + 1, r)
    ensures FirstWhole(t, i, if WholeDefault(t, i) then Some(0) else Shift(1, r))
  {}

  lemma {:induction false} FirstDefaultFrom(t: string, i: nat)
    requires i <= |t| && forall c :: c in t ==> TypeChar(c)
    ensures FirstWhole(t, i, DefaultAt(t[i..], START, Before(t, i)))
    decreases |t| - i
  {
    if i < |t| {
      assert t[i] in t;
      FirstDefaultFrom(t, i + 1);
      FirstWholeStep(t, i, DefaultAt(t[i + 1..], START, Before(t, i + 1)));
      DefaultStep(t, i);
    }
  }

  /** In text of words, dots and brackets the default starts at the first whole word DEFAULT, and there is none without one. */
  lemma FirstDefault(t: string)
    requires forall c :: c in t ==> TypeChar(c)
    ensures FirstWhole(t, 0, DefaultAt(t, START, None))
  {
    FirstDefaultFrom(t, 0);
    assert t[0..] == t;
  }

  /** Every type spelled with words, dots and brackets can be printed, unless it holds the word DEFAULT. */
  lemma SpelledTypeIsPlain(t: string)
    requires forall c :: c in t ==> TypeChar(c)
    requires forall i :: 0 <= i < |t| ==> !WholeDefault(t, i)
    ensures Plain(t)
  {
    CodeIsPiece(t);
    FirstDefault(t);
  }

  // -- Bare words -----------------------------------------------------------

  lemma {:induction false} WordLengthOfSolid(w: string, rest: string)
    requires forall c :: c in w ==> !IsSpace(c)
    requires rest != "" && IsSpace(rest[0])
    ensures WordLength(w + rest) == |w|
  {
    if w == "" {
      assert w + rest == rest;
    } else {
      assert w[0] in w && (w + rest)[1..] == w[1..] + rest;
      WordLengthOfSolid(w[1..], rest);
    }
  }

  lemma SolidFirstToken(w: string, rest: string)
    requires Solid(w) && w[0] != '"' && rest != "" && IsSpace(rest[0])
    ensures FirstToken(w + rest) == Ok((w, rest))
  {
    var t := w + rest;
    assert w[0] in w && t[0] == w[0] && LStrip(t) == t;
    WordLengthOfSolid(w, rest);
    assert t[..|w|] == w && t[|w|..] == rest;
  }

  lemma QuotedFirstToken(name: string, rest: string)
    requires rest == "" || rest[0] != '"'
    ensures FirstToken(Quote(name) + rest) == Ok((Quote(name), rest))
  {
    var s, d := Doubled(name, '"') + "\"", Quote(name) + rest;
    DoubledCloses(name);
    QuotedEndAppend(s, rest);
    assert d[1..] == s + rest && d[0] == '"';
    assert d[..1 + |s|] == Quote(name) && d[1 + |s|..] == rest;
  }

  lemma UpperKeeps(w: string, i: nat)
    requires i < |w| && IsUpper(Upper(w)[i])
    ensures TypeChar(w[i]) && !IsSpace(w[i])
  {}
}
