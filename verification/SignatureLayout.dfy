/** Words with whitespace and comments between them, and what is left of them. */
module SignatureLayout {
  import opened Text
  import opened Whitespace
  import opened SqlLexer
  import opened SqlLaws
  import opened SqlComments

  /** Each word followed by its gap. */
  function Flow(words: seq<string>, gaps: seq<Gap>): string
    requires |words| == |gaps|
  {
    if words == [] then "" else words[0] + (GapText(gaps[0]) + Flow(words[1..], gaps[1..]))
  }

  /** The same without its comments. */
  function Stripped(words: seq<string>, gaps: seq<Gap>): string
    requires |words| == |gaps|
  {
    if words == [] then "" else words[0] + (GapSpace(gaps[0]) + Stripped(words[1..], gaps[1..]))
  }

  /** And with its whitespace squeezed. */
  function Squeezed(words: seq<string>, gaps: seq<Gap>): string
    requires |words| == |gaps|
  {
    if words == [] then "" else Squeeze(words[0]) + (Shown(gaps[0]) + Squeezed(words[1..], gaps[1..]))
  }

  /** Without the gap behind the last word. */
  function Joined(words: seq<string>, gaps: seq<Gap>): string
    requires words != [] && |words| == |gaps|
  {
    if |words| == 1 then Squeeze(words[0])
    else Squeeze(words[0]) + (Shown(gaps[0]) + Joined(words[1..], gaps[1..]))
  }

  /** A word may hold spaces, but not at its ends. */
  predicate Word(w: string) {
    w != "" && !IsSpace(w[0]) && !IsSpace(w[|w| - 1])
  }

  predicate Words(words: seq<string>) {
    forall w :: w in words ==> Word(w)
  }

  predicate Gaps(gaps: seq<Gap>) {
    forall g :: g in gaps ==> GoodGap(g)
  }

  lemma RestOfWords(words: seq<string>, gaps: seq<Gap>)
    requires words != [] && |words| == |gaps| && Words(words) && Gaps(gaps)
    ensures Word(words[0]) && GoodGap(gaps[0]) && Words(words[1..]) && Gaps(gaps[1..])
  {
    assert words[0] in words && gaps[0] in gaps;
    assert forall w :: w in words[1..] ==> w in words;
    assert forall g :: g in gaps[1..] ==> g in gaps;
  }

  /**
   From st to e: no word leaves a quote or comment open, none holds a comment, a
   top-level comma or a stray parenthesis, and each stays apart from what follows it.
   */
  predicate Fits(words: seq<string>, gaps: seq<Gap>, q: string, st: State, e: State)
    requires |words| == |gaps|
  {
    if words == [] then st == e else
      var w, m := words[0], End(words[0], st);
      && Reads(w, st, m, w) && m.mode == Normal
      && Apart(w, gaps[0], if |words| == 1 then q else words[1]) && Fits(words[1..], gaps[1..], q, m, e)
  }

  // -- Scanning -------------------------------------------------------------

  lemma ApartBefore(w: string, g: Gap, x: string, y: string)
    requires Apart(w, g, x) && (x == "" ==> y == "") && (x != "" ==> y != "" && y[0] == x[0])
    ensures Apart(w, g, y)
  {}

  lemma WordThenReads(w: string, g: Gap, q: string, st: State, m: State, e: State, o: string)
    requires Reads(w, st, m, w) && m.mode == Normal && GoodGap(g) && Apart(w, g, q) && Reads(q, m, e, o)
    ensures Reads(w + (GapText(g) + q), st, e, w + (GapSpace(g) + o))
  {
    GapThenReads(g, m.depth, q, e, o);
    WordIsBorder(w, g, q, st);
    ReadsConcat(w, GapText(g) + q, st, m, e, w, GapSpace(g) + o);
  }

  lemma Regroup(a: string, b: string, c: string, d: string)
    ensures (a + (b + c)) + d == a + (b + (c + d))
  {}

  lemma FlowStarts(words: seq<string>, gaps: seq<Gap>, q: string)
    requires |words| == |gaps| && Words(words) && words != []
    ensures words[0] != "" && Flow(words, gaps) + q != "" && (Flow(words, gaps) + q)[0] == words[0][0]
  {
    assert words[0] in words;
  }

  lemma FlowNext(words: seq<string>, gaps: seq<Gap>, q: string, rest: string)
    requires words != [] && |words| == |gaps| && rest == Flow(words[1..], gaps[1..]) + q
    ensures Flow(words, gaps) + q == words[0] + (GapText(gaps[0]) + rest)
  {
    Regroup(words[0], GapText(gaps[0]), Flow(words[1..], gaps[1..]), q);
  }

  lemma StrippedNext(words: seq<string>, gaps: seq<Gap>, q: string, rest: string)
    requires words != [] && |words| == |gaps| && rest == Stripped(words[1..], gaps[1..]) + q
    ensures Stripped(words, gaps) + q == words[0] + (GapSpace(gaps[0]) + rest)
  {
    Regroup(words[0], GapSpace(gaps[0]), Stripped(words[1..], gaps[1..]), q);
  }

  lemma FlowApart(words: seq<string>, gaps: seq<Gap>, q: string, rest: string)
    requires words != [] && |words| == |gaps| && Words(words) && rest == Flow(words[1..], gaps[1..]) + q
    requires Apart(words[0], gaps[0], if |words| == 1 then q else words[1])
    ensures Apart(words[0], gaps[0], rest)
  {
    if |words| == 1 {
      assert rest == q;
    } else {
      assert forall w :: w in words[1..] ==> w in words;
      FlowStarts(words[1..], gaps[1..], q);
      assert words[1] in words;
      ApartBefore(words[0], gaps[0], words[1], rest);
    }
  }

  /** Words that fit read as they do alone; of the gaps only whitespace is left. */
  lemma {:induction false} FlowReads(words: seq<string>, gaps: seq<Gap>, q: string, st: State, e: State, f: State, o: string)
    requires |words| == |gaps| && Words(words) && Gaps(gaps) && Fits(words, gaps, q, st, e) && Reads(q, e, f, o)
    ensures Reads(Flow(words, gaps) + q, st, f, Stripped(words, gaps) + o)
  {
    if words == [] {
      assert "" + q == q && "" + o == o;
    } else {
      var w, m := words[0], End(words[0], st);
      var rest := Flow(words[1..], gaps[1..]) + q;
      RestOfWords(words, gaps);
      FlowReads(words[1..], gaps[1..], q, m, e, f, o);
      FlowApart(words, gaps, q, rest);
      WordThenReads(w, gaps[0], rest, st, m, f, Stripped(words[1..], gaps[1..]) + o);
      FlowNext(words, gaps, q, rest);
      StrippedNext(words, gaps, o, Stripped(words[1..], gaps[1..]) + o);
    }
  }

  // -- Whitespace -----------------------------------------------------------

  lemma WordSqueezed(w: string, g: Gap, x: string)
    requires Word(w) && GoodGap(g) && (x == "" || !IsSpace(x[0]))
    ensures Squeeze(w + (GapSpace(g) + x)) == Squeeze(w) + (Shown(g) + Squeeze(x))
  {
    SqueezeAppend(w, GapSpace(g) + x);
    GapSqueezed(g, x);
  }

  lemma SqueezedNext(words: seq<string>, gaps: seq<Gap>, q: string, rest: string)
    requires words != [] && |words| == |gaps| && rest == Squeezed(words[1..], gaps[1..]) + q
    ensures Squeezed(words, gaps) + q == Squeeze(words[0]) + (Shown(gaps[0]) + rest)
  {
    Regroup(Squeeze(words[0]), Shown(gaps[0]), Squeezed(words[1..], gaps[1..]), q);
  }

  /** Begins with no space. */
  predicate Flush(x: string) {
    x == "" || !IsSpace(x[0])
  }

  lemma StrippedIsFlush(words: seq<string>, gaps: seq<Gap>, x: string)
    requires |words| == |gaps| && Words(words) && Flush(x)
    ensures Flush(Stripped(words, gaps) + x)
  {
    if words == [] {
      assert "" + x == x;
    } else {
      assert words[0] in words;
      assert (Stripped(words, gaps) + x)[0] == words[0][0];
    }
  }

  lemma {:induction false} FlowSqueezed(words: seq<string>, gaps: seq<Gap>, x: string)
    requires |words| == |gaps| && Words(words) && Gaps(gaps) && Flush(x)
    ensures Squeeze(Stripped(words, gaps) + x) == Squeezed(words, gaps) + Squeeze(x)
  {
    if words == [] {
      assert "" + x == x && "" + Squeeze(x) == Squeeze(x);
    } else {
      var rest := Stripped(words[1..], gaps[1..]) + x;
      RestOfWords(words, gaps);
      FlowSqueezed(words[1..], gaps[1..], x);
      StrippedIsFlush(words[1..], gaps[1..], x);
      WordSqueezed(words[0], gaps[0], rest);
      StrippedNext(words, gaps, x, rest);
      SqueezedNext(words, gaps, Squeeze(x), Squeeze(rest));
    }
  }

  lemma {:induction false} SqueezedIsJoined(words: seq<string>, gaps: seq<Gap>)
    requires words != [] && |words| == |gaps|
    ensures Squeezed(words, gaps) == Joined(words, gaps) + Shown(gaps[|gaps| - 1])
  {
    if |words| == 1 {
      assert Squeezed(words[1..], gaps[1..]) == "";
      assert Shown(gaps[0]) + "" == Shown(gaps[0]);
    } else {
      SqueezedIsJoined(words[1..], gaps[1..]);
      assert gaps[1..][|gaps[1..]| - 1] == gaps[|gaps| - 1];
      JoinedStep(words, gaps, Joined(words[1..], gaps[1..]), Shown(gaps[|gaps| - 1]));
    }
  }

  lemma JoinedStep(words: seq<string>, gaps: seq<Gap>, rest: string, end: string)
    requires |words| > 1 && |words| == |gaps| && rest == Joined(words[1..], gaps[1..])
    requires Squeezed(words[1..], gaps[1..]) == rest + end
    ensures Squeezed(words, gaps) == Joined(words, gaps) + end
  {
    Regroup(Squeeze(words[0]), Shown(gaps[0]), rest, end);
  }

  lemma {:induction false} JoinedIsWord(words: seq<string>, gaps: seq<Gap>)
    requires words != [] && |words| == |gaps| && Words(words)
    ensures Word(Joined(words, gaps)) && words[0] != "" && Joined(words, gaps)[0] == words[0][0]
  {
    assert words[0] in words;
    SqueezeEnds(words[0]);
    if |words| > 1 {
      assert forall w :: w in words[1..] ==> w in words;
      JoinedIsWord(words[1..], gaps[1..]);
    }
  }

  lemma LStripLead(b: string, s: string)
    requires (b == "" || b == " ") && s != "" && !IsSpace(s[0])
    ensures LStrip(b + s) == s
  {
    assert b == "" ==> b + s == s;
    assert (" " + s)[1..] == s;
  }

  lemma SqueezedText(lead: Gap, words: seq<string>, gaps: seq<Gap>, x: string, j: string)
    requires words != [] && |words| == |gaps| && Words(words) && Gaps(gaps) && GoodGap(lead) && Flush(x)
    requires j == Joined(words, gaps)
    ensures Squeeze(GapSpace(lead) + (Stripped(words, gaps) + x)) == Shown(lead) + ((j + Shown(gaps[|gaps| - 1])) + Squeeze(x))
  {
    StrippedIsFlush(words, gaps, x);
    GapSqueezed(lead, Stripped(words, gaps) + x);
    FlowSqueezed(words, gaps, x);
    SqueezedIsJoined(words, gaps);
  }

  lemma TrimmedText(lead: string, j: string, b: string, x: string)
    requires (lead == "" || lead == " ") && Word(j)
    ensures Trim(lead + ((j + b) + x)) == RStrip(j + (b + x))
  {
    Assoc(j, b, x);
    assert (j + (b + x))[0] == j[0];
    LStripLead(lead, j + (b + x));
  }

  /** Stripped and collapsed, the words are joined by a space where their gap separates and by nothing where it does not. */
  lemma CollapsedText(lead: Gap, words: seq<string>, gaps: seq<Gap>, x: string, j: string)
    requires words != [] && |words| == |gaps| && Words(words) && Gaps(gaps) && GoodGap(lead) && Flush(x)
    requires j == Joined(words, gaps)
    ensures Collapse(GapSpace(lead) + (Stripped(words, gaps) + x)) == RStrip(j + (Shown(gaps[|gaps| - 1]) + Squeeze(x)))
  {
    JoinedIsWord(words, gaps);
    SqueezedText(lead, words, gaps, x, j);
    TrimmedText(Shown(lead), j, Shown(gaps[|gaps| - 1]), Squeeze(x));
  }

  // -- Separated words ------------------------------------------------------

  /** Every gap but the last separates. */
  predicate AllSeparate(gaps: seq<Gap>) {
    forall i :: 0 <= i < |gaps| - 1 ==> Separates(gaps[i])
  }

  predicate TidyWords(words: seq<string>) {
    forall w :: w in words ==> Tidy(w)
  }

  /** Gluing words makes the text shorter; that is the only way it can differ. */
  lemma {:induction false} JoinedLength(words: seq<string>, gaps: seq<Gap>)
    requires words != [] && |words| == |gaps| && TidyWords(words)
    ensures var j, t := Joined(words, gaps), Join(" ", words);
      |j| <= |t| && (AllSeparate(gaps) ==> j == t) && (!AllSeparate(gaps) ==> |j| < |t|)
  {
    assert words[0] in words;
    if |words| > 1 {
      assert forall w :: w in words[1..] ==> w in words;
      JoinedLength(words[1..], gaps[1..]);
      AllSeparateNext(gaps);
      Assoc(words[0], " ", Join(" ", words[1..]));
    }
  }

  lemma AllSeparateNext(gaps: seq<Gap>)
    requires |gaps| > 1
    ensures AllSeparate(gaps) <==> Separates(gaps[0]) && AllSeparate(gaps[1..])
  {
    if Separates(gaps[0]) && AllSeparate(gaps[1..]) {
      forall i | 0 <= i < |gaps| - 1 ensures Separates(gaps[i]) {
        if i > 0 { assert gaps[i] == gaps[1..][i - 1]; }
      }
    }
    if AllSeparate(gaps) {
      forall i | 0 <= i < |gaps[1..]| - 1 ensures Separates(gaps[1..][i]) {
        assert gaps[1..][i] == gaps[i + 1];
      }
    }
  }

  lemma TidyPair(a: string, b: string)
    requires Tidy(a) && Tidy(b)
    ensures Tidy(a + (" " + b))
  {
    SqueezeAppend(a, " " + b);
    SqueezeAppend(" ", b);
    assert Squeeze(" ") == " " + Squeeze("");
  }

  lemma {:induction false} JoinIsTidy(words: seq<string>)
    requires words != [] && TidyWords(words)
    ensures Tidy(Join(" ", words))
  {
    assert words[0] in words;
    if |words| > 1 {
      assert forall w :: w in words[1..] ==> w in words;
      JoinIsTidy(words[1..]);
      TidyPair(words[0], Join(" ", words[1..]));
      Assoc(words[0], " ", Join(" ", words[1..]));
    }
  }
}
