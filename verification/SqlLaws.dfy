/** Laws of the SQL scanners, for every text. */
module SqlLaws {
  import opened Text
  import opened SqlLexer
  import opened SqlScanners

  // -- Splitting is lossless ------------------------------------------------

  lemma JoinOnto(pre: string, parts: seq<string>)
    requires parts != []
    ensures Join(",", Onto(pre, parts)) == pre + Join(",", parts)
  {
    var onto := Onto(pre, parts);
    if |parts| > 1 {
      assert onto[1..] == parts[1..];
      assert (pre + parts[0]) + "," + Join(",", parts[1..]) == pre + (parts[0] + "," + Join(",", parts[1..]));
    }
  }

  lemma JoinCons(first: string, parts: seq<string>)
    requires parts != []
    ensures Join(",", [first] + parts) == first + ("," + Join(",", parts))
  {
    assert ([first] + parts)[1..] == parts;
  }

  lemma LosslessAtComma(s: string, st: State, t: string)
    requires s != "" && TopComma(s, st) && t == Rest(s, st) && Join(",", Split(t, Next(s, st))) == t
    ensures Join(",", Split(s, st)) == s
  {
    JoinCons("", Split(t, Next(s, st)));
    assert s == "" + ("," + t);
  }

  lemma LosslessAtToken(s: string, st: State, t: string)
    requires s != "" && !TopComma(s, st) && t == Rest(s, st) && Join(",", Split(t, Next(s, st))) == t
    ensures Join(",", Split(s, st)) == s
  {
    var token, more := s[..Step(s, st.mode).len], Split(t, Next(s, st));
    JoinOnto(token, more);
    assert s == token + t;
  }

  /** Joining the parts with commas gives the text back. */
  lemma {:induction false} SplitIsLossless(s: string, st: State)
    ensures Join(",", Split(s, st)) == s
    decreases |s|
  {
    if s != "" {
      var t := Rest(s, st);
      SplitIsLossless(t, Next(s, st));
      if TopComma(s, st) {
        LosslessAtComma(s, st, t);
      } else {
        LosslessAtToken(s, st, t);
      }
    }
  }

  /** The first part ends at the end of the text or at a comma. */
  lemma FirstPart(s: string, st: State) returns (q: string)
    ensures s == Split(s, st)[0] + q && Cut(Split(s, st)[0], q)
  {
    SplitIsLossless(s, st);
    var parts := Split(s, st);
    if |parts| == 1 {
      q := "";
    } else {
      q := "," + Join(",", parts[1..]);
      assert s == parts[0] + q;
    }
  }

  // -- Every part is whole --------------------------------------------------

  /** The part up to the first top-level comma, read on its own, moves as it did in the text. */
  lemma FirstPartMovesAlike(s: string, st: State)
    requires s != "" && !TopComma(s, st)
    ensures var p := Split(s, st)[0];
      && p == s[..Step(s, st.mode).len] + Split(Rest(s, st), Next(s, st))[0]
      && p != "" && Step(p, st.mode) == Step(s, st.mode) && Next(p, st) == Next(s, st)
      && Rest(p, st) == Split(Rest(s, st), Next(s, st))[0]
      && !TopComma(p, st) && p[0] == s[0] && (|p| >= 2 ==> |s| >= 2 && p[1] == s[1])
  {
    var p := Split(s, st)[0];
    var q := FirstPart(s, st);
    StepAtCut(p, q, st);
  }

  lemma {:induction false} PartsSplitToThemselves(s: string, st: State)
    ensures var parts := Split(s, st);
      && Split(parts[0], st) == [parts[0]]
      && forall k :: 1 <= k < |parts| ==> Split(parts[k], START) == [parts[k]]
    decreases |s|
  {
    if s != "" {
      var t, next := Rest(s, st), Next(s, st);
      var parts, more := Split(s, st), Split(t, next);
      PartsSplitToThemselves(t, next);
      if TopComma(s, st) {
        assert next == START;
        assert forall k :: 1 <= k < |parts| ==> parts[k] == more[k - 1];
      } else {
        FirstPartMovesAlike(s, st);
        assert parts[1..] == more[1..];
      }
    }
  }

  // -- Stripping commutes with splitting ------------------------------------

  /** Comments stripped from each part; the first part may start inside a quote or comment. */
  function StripParts(parts: seq<string>, m: Mode): seq<string> {
    if parts == [] then [] else [Strip(parts[0], m)] + StripParts(parts[1..], Normal)
  }

  lemma StripStep(s: string, m: Mode, v: Move, t: string)
    requires s != "" && Step(s, m) == v && s[v.len..] == t
    ensures Strip(s, m) == Kept(s, m) + Strip(t, v.mode)
  {}

  lemma SameKept(a: string, b: string, m: Mode)
    requires a != "" && b != "" && Step(a, m) == Step(b, m) && a[0] == b[0]
    requires |a| >= 2 && |b| >= 2 ==> a[1] == b[1]
    ensures Kept(a, m) == Kept(b, m)
  {}

  lemma CommutesAtComma(s: string, st: State, t: string)
    requires s != "" && TopComma(s, st) && t == Rest(s, st)
    requires Join(",", StripParts(Split(t, START), Normal)) == Strip(t, Normal)
    ensures Join(",", StripParts(Split(s, st), st.mode)) == Strip(s, st.mode)
  {
    var parts, more := Split(s, st), Split(t, START);
    assert Next(s, st) == START && parts[1..] == more;
    JoinCons("", StripParts(more, Normal));
  }

  lemma StripFirstPart(p: string, s: string, m: Mode, v: Move, rest: string)
    requires p != "" && s != "" && Step(p, m) == Step(s, m) == v && p[v.len..] == rest
    requires p[0] == s[0] && (|p| >= 2 && |s| >= 2 ==> p[1] == s[1])
    ensures Strip(p, m) == Kept(s, m) + Strip(rest, v.mode)
  {
    SameKept(p, s, m);
    StripStep(p, m, v, rest);
  }

  lemma OntoKept(parts: seq<string>, more: seq<string>, m: Mode, m': Mode, kept: string)
    requires parts != [] && more != [] && parts[1..] == more[1..] && Strip(parts[0], m) == kept + Strip(more[0], m')
    ensures Join(",", StripParts(parts, m)) == kept + Join(",", StripParts(more, m'))
  {
    assert StripParts(parts, m) == Onto(kept, StripParts(more, m'));
    JoinOnto(kept, StripParts(more, m'));
  }

  lemma CommutesAtToken(s: string, st: State, t: string, next: State)
    requires s != "" && !TopComma(s, st) && t == Rest(s, st) && next == Next(s, st)
    requires Join(",", StripParts(Split(t, next), next.mode)) == Strip(t, next.mode)
    ensures Join(",", StripParts(Split(s, st), st.mode)) == Strip(s, st.mode)
  {
    var parts, more, v := Split(s, st), Split(t, next), Step(s, st.mode);
    FirstPartMovesAlike(s, st);
    StripFirstPart(parts[0], s, st.mode, v, more[0]);
    StripStep(s, st.mode, v, t);
    OntoKept(parts, more, st.mode, next.mode, Kept(s, st.mode));
  }

  lemma {:induction false} StripCommutesWithSplit(s: string, st: State)
    ensures Join(",", StripParts(Split(s, st), st.mode)) == Strip(s, st.mode)
    decreases |s|
  {
    if s == "" {
      assert StripParts([""], st.mode) == [""];
    } else {
      var t, next := Rest(s, st), Next(s, st);
      StripCommutesWithSplit(t, next);
      if TopComma(s, st) {
        assert next == START;
        CommutesAtComma(s, st, t);
      } else {
        CommutesAtToken(s, st, t, next);
      }
    }
  }

  // -- The matching parenthesis ---------------------------------------------

  /** Reading s up to r from one level below st is neutral, and a close parenthesis follows. */
  predicate ClosesAt(s: string, st: State, r: nat) {
    && r < |s| && s[r] == ')' && st.depth > 0
    && var inner := State(st.mode, st.depth - 1); NoStray(s[..r], inner) && End(s[..r], inner) == START
  }

  lemma ClosesBeyondToken(s: string, st: State, r: nat)
    requires r < |s| && s[r] == ')' && r > 0 && st.depth > 0
    ensures var inner := State(st.mode, st.depth - 1); var p := s[..r];
      && Step(p, st.mode) == Step(s, st.mode) && Step(s, st.mode).len <= r
      && (Code(p, st.mode) <==> Code(s, st.mode)) && p[0] == s[0]
      && Rest(p, inner) == Rest(s, st)[..r - Step(s, st.mode).len]
  {
    var p, q := s[..r], s[r..];
    assert s == p + q;
    StepAtCut(p, q, State(st.mode, st.depth - 1));
  }

  /** The first token is the close parenthesis itself. */
  predicate AtClose(s: string, st: State)
    requires s != ""
  {
    Code(s, st.mode) && s[0] == ')' && st.depth == 1
  }

  lemma ClosesNow(s: string, st: State, r: nat)
    requires s != "" && AtClose(s, st)
    ensures ClosesAt(s, st, r) <==> r == 0
  {
    if 0 < r < |s| && s[r] == ')' {
      ClosesBeyondToken(s, st, r);
    }
  }

  /** No place inside the first token closes anything. */
  lemma ClosesInsideToken(s: string, st: State, r: nat)
    requires s != "" && st.depth > 0 && !AtClose(s, st) && r < Step(s, st.mode).len
    ensures !ClosesAt(s, st, r)
  {
    if 0 < r < |s| && s[r] == ')' {
      ClosesBeyondToken(s, st, r);
    } else if r == 0 {
      assert s[..0] == "";
    }
  }

  lemma ClosesBehind(s: string, st: State, r: nat)
    requires s != "" && st.depth > 0 && !AtClose(s, st) && r >= Step(s, st.mode).len
    ensures ClosesAt(s, st, r) <==> ClosesAt(Rest(s, st), Next(s, st), r - Step(s, st.mode).len)
  {
    var n, t, next := Step(s, st.mode).len, Rest(s, st), Next(s, st);
    if r < |s| {
      assert t[r - n] == s[r];
      if s[r] == ')' {
        ClosesBeyondToken(s, st, r);
        assert next.depth > 0 ==> Next(s[..r], State(st.mode, st.depth - 1)) == State(next.mode, next.depth - 1);
      }
    }
  }

  /** The search returns r exactly when r closes what was open: it is the least, and the only, such index. */
  lemma {:induction false} MatchingIffCloses(s: string, st: State, r: nat)
    requires st.depth > 0
    ensures Matching(s, st) == Some(r) <==> ClosesAt(s, st, r)
    decreases |s|
  {
    if s != "" {
      if AtClose(s, st) {
        ClosesNow(s, st, r);
      } else {
        var n, t := Step(s, st.mode).len, Rest(s, st);
        MatchingNext(s, st, t, 0);
        if r >= n {
          MatchingIffCloses(t, Next(s, st), r - n);
          ClosesBehind(s, st, r);
        } else {
          ClosesInsideToken(s, st, r);
        }
      }
    }
  }

  /**
   The argument list found for a function: the first position behind the open
   parenthesis that closes a neutral text.
   */
  lemma ArgumentListIsNeutral(text: string, openIndex: nat, r: nat)
    requires openIndex < |text|
    ensures Shift(openIndex + 1, Matching(text[openIndex + 1..], State(Normal, 1))) == Some(r) <==>
      openIndex < r < |text| && text[r] == ')' && Neutral(text[openIndex + 1..r])
  {
    var s := text[openIndex + 1..];
    if openIndex < r {
      var k := r - (openIndex + 1);
      MatchingIffCloses(s, State(Normal, 1), k);
      if r < |text| {
        assert s[k] == text[r] && s[..k] == text[openIndex + 1..r];
      }
    }
  }

  // -- Scanning two texts one after the other -------------------------------

  lemma KeptBefore(p: string, q: string, m: Mode)
    requires p != "" && Step(p + q, m) == Step(p, m)
    ensures Kept(p + q, m) == Kept(p, m)
  {
    var s := p + q;
    assert s[0] == p[0] && (|p| >= 2 ==> s[1] == p[1]);
    SameKept(s, p, m);
  }

  lemma StripBehind(p: string, q: string, st: State, t: string, end: string)
    requires p != "" && Step(p + q, st.mode) == Step(p, st.mode) && t == Rest(p, st) && Rest(p + q, st) == t + q
    requires Strip(t + q, Next(p, st).mode) == Strip(t, Next(p, st).mode) + end
    ensures Strip(p + q, st.mode) == Strip(p, st.mode) + end
  {
    var v := Step(p, st.mode);
    KeptBefore(p, q, st.mode);
    StripStep(p, st.mode, v, t);
    StripStep(p + q, st.mode, v, t + q);
    Assoc(Kept(p, st.mode), Strip(t, v.mode), end);
  }

  lemma {:induction false} StripAtBorder(p: string, q: string, st: State)
    requires Border(p, q, st)
    ensures Strip(p + q, st.mode) == Strip(p, st.mode) + Strip(q, End(p, st).mode)
    decreases |p|
  {
    if p == "" {
      assert p + q == q;
    } else {
      var t := Rest(p, st);
      StepAtBorder(p, q, st);
      StripAtBorder(t, q, Next(p, st));
      StripBehind(p, q, st, t, Strip(q, End(p, st).mode));
    }
  }

  lemma SingleRest(p: string, st: State)
    requires p != "" && Split(p, st) == [p]
    ensures !TopComma(p, st) && Split(Rest(p, st), Next(p, st)) == [Rest(p, st)]
  {
    var t := Rest(p, st);
    var token := p[..Step(p, st.mode).len];
    var more := Split(t, Next(p, st));
    SplitTurns("", p, st, t);
    OntoEmpty([p]);
    assert !TopComma(p, st);
    assert "" + token == token;
    assert [token + more[0]] + more[1..] == [p];
    assert token + more[0] == p == token + t;
    assert p[|token|..] == more[0];
  }

  lemma SplitToken(s: string, st: State, token: string, t: string)
    requires s != "" && !TopComma(s, st) && token == s[..Step(s, st.mode).len] && t == Rest(s, st)
    ensures Split(s, st) == Onto(token, Split(t, Next(s, st)))
  {}

  lemma TokenAtBorder(p: string, q: string, st: State)
    requires p != "" && Border(p, q, st)
    ensures var n := Step(p, st.mode).len; (p + q)[..n] == p[..n] && p[..n] + Rest(p, st) == p
    ensures TopComma(p + q, st) <==> TopComma(p, st)
  {
    StepAtBorder(p, q, st);
    assert (p + q)[0] == p[0];
  }

  lemma SplitBehind(p: string, q: string, st: State, t: string, parts: seq<string>)
    requires p != "" && Border(p, q, st) && !TopComma(p, st) && t == Rest(p, st) && parts != []
    requires Split(t + q, Next(p, st)) == Onto(t, parts)
    ensures Split(p + q, st) == Onto(p, parts)
  {
    var token := p[..Step(p, st.mode).len];
    StepAtBorder(p, q, st);
    TokenAtBorder(p, q, st);
    SplitToken(p + q, st, token, t + q);
    OntoTwice(token, t, parts);
  }

  /** A text without a top-level comma is read into the first part of what follows. */
  lemma {:induction false} SplitAtBorder(p: string, q: string, st: State)
    requires Border(p, q, st) && Split(p, st) == [p]
    ensures Split(p + q, st) == Onto(p, Split(q, End(p, st)))
    decreases |p|
  {
    if p == "" {
      assert p + q == q;
      OntoEmpty(Split(q, st));
    } else {
      var t := Rest(p, st);
      SingleRest(p, st);
      StepAtBorder(p, q, st);
      SplitAtBorder(t, q, Next(p, st));
      SplitBehind(p, q, st, t, Split(q, End(p, st)));
    }
  }

  // -- Reading a text on its own --------------------------------------------

  /** From st, the text is one part without a stray parenthesis; it leads to e and strips to o. */
  predicate Reads(p: string, st: State, e: State, o: string) {
    End(p, st) == e && NoStray(p, st) && Split(p, st) == [p] && Strip(p, st.mode) == o
  }

  lemma ReadsConcat(p: string, q: string, st: State, m: State, e: State, a: string, b: string)
    requires Border(p, q, st) && Reads(p, st, m, a) && Reads(q, m, e, b)
    ensures Reads(p + q, st, e, a + b)
  {
    EndAtBorder(p, q, st);
    StripAtBorder(p, q, st);
    SplitAtBorder(p, q, st);
    OntoSingle(p, q);
  }

  lemma OntoSingle(p: string, q: string)
    ensures Onto(p, [q]) == [p + q]
  {}

  lemma SingleToken(s: string, st: State, t: string)
    requires s != "" && !TopComma(s, st) && t == Rest(s, st) && Split(t, Next(s, st)) == [t]
    ensures Split(s, st) == [s]
  {
    var token := s[..Step(s, st.mode).len];
    SplitToken(s, st, token, t);
    OntoSingle(token, t);
    assert token + t == s;
  }

  /** One more token in front. */
  lemma ReadsToken(s: string, st: State, e: State, kept: string, o: string)
    requires s != "" && !TopComma(s, st) && !(Code(s, st.mode) && s[0] == ')' && st.depth == 0)
    requires kept == Kept(s, st.mode) && Reads(Rest(s, st), Next(s, st), e, o)
    ensures Reads(s, st, e, kept + o)
  {
    var t := Rest(s, st);
    SingleToken(s, st, t);
    StripStep(s, st.mode, Step(s, st.mode), t);
  }

  lemma ReadsNothing(st: State)
    ensures Reads("", st, st, "")
  {}
}
