/** Parentheses as the scanners see them: what stands between a pair is one piece of the text around it. */
module SqlParentheses {
  import opened Text
  import opened Whitespace
  import opened SqlLexer
  import opened SqlScanners
  import opened SqlLaws
  import opened SqlSignature
  import opened SignaturePieces
  import opened SignatureHead
  import opened SignatureParameter
  import opened SignatureGlue
  import opened SignatureRoundTrip

  function Parenthesized(x: string): string {
    "(" + (x + ")")
  }

  // -- Scanning deeper down -------------------------------------------------

  function Deeper(st: State, k: nat): State {
    State(st.mode, st.depth + k)
  }

  predicate Stray(s: string, st: State)
    requires s != ""
  {
    Code(s, st.mode) && s[0] == ')' && st.depth == 0
  }

  lemma DeeperNext(s: string, st: State, k: nat)
    requires s != "" && !Stray(s, st)
    ensures Next(s, Deeper(st, k)) == Deeper(Next(s, st), k) && Rest(s, Deeper(st, k)) == Rest(s, st)
  {}

  /** Inside parentheses a text without a stray parenthesis is one part, and leads as deep as it does outside. */
  lemma {:induction false} DeeperReads(s: string, st: State, k: nat)
    requires NoStray(s, st) && k > 0
    ensures Reads(s, Deeper(st, k), Deeper(End(s, st), k), Strip(s, st.mode))
    decreases |s|
  {
    var deep := Deeper(st, k);
    if s == "" {
      ReadsNothing(deep);
    } else {
      DeeperNext(s, st, k);
      DeeperReads(Rest(s, st), Next(s, st), k);
      ReadsToken(s, deep, Deeper(End(s, st), k), Kept(s, st.mode), Strip(Rest(s, st), Next(s, st).mode));
      StripStep(s, st.mode, Step(s, st.mode), Rest(s, st));
    }
  }

  lemma CloseReads(d: nat)
    ensures Reads(")", State(Normal, d + 1), State(Normal, d), ")")
  {
    assert ")"[1..] == "";
    ReadsNothing(State(Normal, d));
    ReadsToken(")", State(Normal, d + 1), State(Normal, d), ")", "");
  }

  lemma ClosedReads(x: string, d: nat)
    requires Neutral(x)
    ensures Reads(x + ")", State(Normal, d + 1), State(Normal, d), Strip(x, Normal) + ")")
  {
    var deep := State(Normal, d + 1);
    DeeperReads(x, START, d + 1);
    CloseReads(d);
    CutIsBorder(x, ")", deep);
    ReadsConcat(x, ")", deep, deep, State(Normal, d), Strip(x, Normal), ")");
  }

  /** At any depth a neutral text in parentheses is neutral again, and one part, whatever commas it holds. */
  lemma ParenthesizedReads(x: string, d: nat)
    requires Neutral(x)
    ensures Reads(Parenthesized(x), State(Normal, d), State(Normal, d), Parenthesized(Strip(x, Normal)))
  {
    var s, st := Parenthesized(x), State(Normal, d);
    assert s[1..] == x + ")";
    ClosedReads(x, d);
    ReadsToken(s, st, st, "(", Strip(x, Normal) + ")");
  }

  lemma ParenthesizedIsPiece(x: string)
    requires Neutral(x)
    ensures Piece(Parenthesized(x)) && Strip(Parenthesized(x), Normal) == Parenthesized(Strip(x, Normal))
  {
    ParenthesizedReads(x, 0);
    ReadsIsPiece(Parenthesized(x), Parenthesized(Strip(x, Normal)));
  }

  // -- The matching parenthesis ---------------------------------------------

  lemma {:induction false} MatchingSteps(p: string, q: string, st: State)
    requires Border(p, q, Deeper(st, 1)) && NoStray(p, st)
    ensures Matching(p + q, Deeper(st, 1)) == Shift(|p|, Matching(q, Deeper(End(p, st), 1)))
    decreases |p|
  {
    var deep := Deeper(st, 1);
    if p == "" {
      assert p + q == q;
    } else {
      var t, n := Rest(p, st), Step(p, st.mode).len;
      DeeperNext(p, st, 1);
      StepAtBorder(p, q, deep);
      MatchingSteps(t, q, Next(p, st));
      StepsOver(p, q, st, t + q, n);
      ShiftChain(Matching(p + q, deep), n, Matching(t + q, Deeper(Next(p, st), 1)), |t|,
                 Matching(q, Deeper(End(p, st), 1)), |p|);
    }
  }

  lemma StepsOver(p: string, q: string, st: State, rest: string, n: nat)
    requires p != "" && !Stray(p, st) && Step(p + q, st.mode) == Step(p, st.mode) && n == Step(p, st.mode).len
    requires rest == Rest(p + q, Deeper(st, 1))
    ensures Matching(p + q, Deeper(st, 1)) == Shift(n, Matching(rest, Next(p + q, Deeper(st, 1))))
  {
    assert (p + q)[0] == p[0];
  }

  /** Inside parentheses the search steps over a pair of its own. */
  lemma PairIsSteppedOver(x: string, rest: string)
    requires Neutral(x)
    ensures Matching(Parenthesized(x) + rest, State(Normal, 1)) == Shift(|x| + 2, Matching(rest, State(Normal, 1)))
  {
    var p := Parenthesized(x);
    ParenthesizedReads(x, 0);
    CutIsBorder(p, rest, Deeper(START, 1));
    MatchingSteps(p, rest, START);
  }

  /** The close parenthesis behind a neutral text is the one found. */
  lemma MatchIsFound(x: string, q: string)
    requires Neutral(x) && q != "" && q[0] == ')'
    ensures Matching(x + q, State(Normal, 1)) == Some(|x|)
  {
    var inner := State(Normal, 1);
    CutIsBorder(x, q, inner);
    MatchingSteps(x, q, START);
    CloseMatches(q);
    assert Shift(|x|, Some(0)) == Some(|x|);
  }

  lemma CloseMatches(q: string)
    requires q != "" && q[0] == ')'
    ensures Matching(q, State(Normal, 1)) == Some(0)
  {}

  // -- No default inside ----------------------------------------------------

  lemma {:induction false} NoDefaultDeeper(s: string, st: State, k: nat, prev: Option<char>)
    requires NoStray(s, st) && k > 0
    ensures DefaultAt(s, Deeper(st, k), prev).None?
    decreases |s|
  {
    if s != "" {
      var n := Step(s, st.mode).len;
      DeeperNext(s, st, k);
      NoDefaultDeeper(Rest(s, st), Next(s, st), k, Some(s[n - 1]));
      DefaultNext(s, Deeper(st, k), prev, Rest(s, st), 0);
    }
  }

  lemma NoDefaultInClosed(x: string, prev: Option<char>)
    requires Neutral(x)
    ensures DefaultAt(x + ")", State(Normal, 1), prev).None?
  {
    var deep := State(Normal, 1);
    NoDefaultDeeper(x, START, 1, prev);
    DeeperReads(x, START, 1);
    DefaultAtCut(x, ")", deep, prev);
    assert ")"[1..] == "" && DefaultAt("", START, Some(')')).None?;
    assert !DefaultHere(")", deep, Last(x, prev));
    DefaultNext(")", deep, Last(x, prev), "", 0);
  }

  /** An equals sign or the word DEFAULT between parentheses starts no default. */
  lemma NoDefaultInPair(x: string, prev: Option<char>)
    requires Neutral(x)
    ensures DefaultAt(Parenthesized(x), START, prev).None?
  {
    var s := Parenthesized(x);
    assert s[1..] == x + ")" && !DefaultWord(s) by {
      if |s| >= 7 { assert Upper(s[..7])[0] == '('; }
    }
    NoDefaultInClosed(x, Some('('));
    DefaultNext(s, START, prev, x + ")", 0);
  }

  // -- Types with an argument list ------------------------------------------

  lemma ParenthesizedIsPlain(x: string)
    requires Neutral(x) && Strip(x, Normal) == x
    ensures Plain(Parenthesized(x))
  {
    ParenthesizedIsPiece(x);
    NoDefaultInPair(x, None);
  }

  /** A type with a closed argument list behind its name, and more behind that, is as good as one without. */
  lemma SizedTypeIsPlain(t: string, x: string, u: string)
    requires Plain(t) && Neutral(x) && Strip(x, Normal) == x && Plain(u)
    ensures Plain((t + Parenthesized(x)) + u)
  {
    var p := Parenthesized(x);
    ParenthesizedIsPlain(x);
    PairCuts(t, p, u);
    PlainConcat(t, p);
    PlainConcat(t + p, u);
  }

  lemma PairCuts(t: string, p: string, u: string)
    requires p != "" && p[0] == '(' && p[|p| - 1] == ')'
    ensures Cut(t, p) && WordCut(t, p) && Cut(t + p, u) && WordCut(t + p, u)
  {
    assert (t + p)[|t + p| - 1] == ')';
  }

  /** A parameter of such a type keeps the whole of it, alone and in a list. */
  lemma SizedTypeParses(w: string, t: string, x: string, u: string)
    requires OneWord(w) && Plain(t) && Neutral(x) && Strip(x, Normal) == x && Plain(u)
    requires Tidy((t + Parenthesized(x)) + u)
    ensures var whole := (t + Parenthesized(x)) + u;
      OnePart(Parameter("", Bare(w), [whole], NoDefault)) && ParseParam(w + (" " + whole)) == Typed(whole)
  {
    SizedTypeIsPlain(t, x, u);
    FirstWordIsDropped(w, (t + Parenthesized(x)) + u);
  }

  // -- Commas in a list of sizes --------------------------------------------

  lemma {:induction false} FlatIsNeutral(x: string)
    requires forall c :: c in x ==> !Pairing(c) && c != '(' && c != ')'
    ensures Neutral(x) && Strip(x, Normal) == x
  {
    if x != "" {
      var t := x[1..];
      assert x[0] in x && forall c :: c in t ==> c in x;
      FlatIsNeutral(t);
      assert Step(x, Normal) == Move(1, Normal) && Next(x, START) == START && Rest(x, START) == t;
      StripStep(x, Normal, Step(x, Normal), t);
      assert [x[0]] + t == x;
    }
  }

  /** A comma between parentheses does not split, a comma between parameters does. */
  lemma CommaInside(a: string, x: string, b: string)
    requires Plain(a) && Plain(b) && forall c :: c in x ==> !Pairing(c) && c != '(' && c != ')'
    ensures Split((a + Parenthesized(x)) + ("," + b), START) == [a + Parenthesized(x), b]
  {
    FlatIsNeutral(x);
    ParenthesizedIsPiece(x);
    PieceConcat(a, Parenthesized(x));
    PieceThenList(a + Parenthesized(x), b, [b]);
  }
}
