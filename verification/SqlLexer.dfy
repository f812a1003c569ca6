/**
 The lexical rules that the SQL scanners share: quotes, line comments, nested
 block comments and parenthesis depth, one token at a time.
 */
module SqlLexer {
  datatype Mode = Normal | Single | Double | Line | Block(level: nat)
  datatype Move = Move(len: nat, mode: Mode)
  datatype State = State(mode: Mode, depth: nat)

  const START := State(Normal, 0)

  predicate Pair(s: string, a: char, b: char) {
    |s| >= 2 && s[0] == a && s[1] == b
  }

  /** How many characters the next token takes and the mode behind it. */
  function Step(s: string, m: Mode): (v: Move)
    requires s != ""
    ensures 1 <= v.len <= 2 && v.len <= |s|
  {
    match m
    case Line => Move(1, if s[0] == '\n' then Normal else Line)
    case Block(n) =>
      if Pair(s, '/', '*') then Move(2, Block(n + 1))
      else if Pair(s, '*', '/') then Move(2, if n <= 1 then Normal else Block(n - 1))
      else Move(1, m)
    case Single =>
      if Pair(s, '\'', '\'') then Move(2, Single)
      else Move(1, if s[0] == '\'' then Normal else Single)
    case Double =>
      if Pair(s, '"', '"') then Move(2, Double)
      else Move(1, if s[0] == '"' then Normal else Double)
    case Normal =>
      if Pair(s, '-', '-') then Move(2, Line)
      else if Pair(s, '/', '*') then Move(2, Block(1))
      else if s[0] == '\'' then Move(1, Single)
      else if s[0] == '"' then Move(1, Double)
      else Move(1, Normal)
  }

  /** The next character is plain SQL: outside quotes and comments and not opening one. */
  predicate Code(s: string, m: Mode)
    requires s != ""
  {
    m.Normal? && Step(s, m) == Move(1, Normal)
  }

  /** State behind the next token; a close parenthesis at depth 0 changes nothing. */
  function Next(s: string, st: State): State
    requires s != ""
  {
    State(Step(s, st.mode).mode,
          if Code(s, st.mode) && s[0] == '(' then st.depth + 1
          else if Code(s, st.mode) && s[0] == ')' && st.depth > 0 then st.depth - 1
          else st.depth)
  }

  function Rest(s: string, st: State): (r: string)
    requires s != ""
    ensures |r| < |s|
  {
    s[Step(s, st.mode).len..]
  }

  /** State behind the whole text. */
  function End(s: string, st: State): State
    decreases |s|
  {
    if s == "" then st else End(Rest(s, st), Next(s, st))
  }

  /** No close parenthesis is met at depth 0. */
  predicate NoStray(s: string, st: State)
    decreases |s|
  {
    s == "" || (!(Code(s, st.mode) && s[0] == ')' && st.depth == 0) && NoStray(Rest(s, st), Next(s, st)))
  }

  /** Quotes, comments and parentheses are closed within the text. */
  predicate Neutral(s: string) {
    End(s, START) == START && NoStray(s, START)
  }

  // -- Cutting a text -------------------------------------------------------

  /** Characters that can be part of a two-character token. */
  predicate Pairing(c: char) {
    c == '-' || c == '/' || c == '*' || c == '\'' || c == '"'
  }

  /** The two characters can be one token, in some mode. */
  predicate Joins(a: char, b: char) {
    || (a == b && (a == '-' || a == '\'' || a == '"'))
    || (a == '/' && b == '*') || (a == '*' && b == '/')
  }

  /** No token can straddle the border between p and q. */
  predicate Cut(p: string, q: string) {
    p == "" || q == "" || !Joins(p[|p| - 1], q[0])
  }

  lemma CutAtSlice(p: string, q: string, n: nat)
    requires Cut(p, q) && n <= |p|
    ensures Cut(p[n..], q)
  {}

  lemma SameStep(p: string, q: string, m: Mode)
    requires p != "" && Cut(p, q)
    ensures Step(p + q, m) == Step(p, m)
  {
    assert (p + q)[0] == p[0] && (|p| >= 2 ==> (p + q)[1] == p[1]);
    assert |p| == 1 && q != "" ==> (p + q)[1] == q[0];
  }

  lemma SameMove(p: string, q: string, st: State)
    requires p != "" && Step(p + q, st.mode) == Step(p, st.mode)
    ensures Next(p + q, st) == Next(p, st) && Rest(p + q, st) == Rest(p, st) + q
  {
    var n := Step(p, st.mode).len;
    assert (p + q)[0] == p[0] && (p + q)[n..] == p[n..] + q;
  }

  lemma StepAtCut(p: string, q: string, st: State)
    requires p != "" && Cut(p, q)
    ensures Step(p + q, st.mode) == Step(p, st.mode)
    ensures Next(p + q, st) == Next(p, st)
    ensures Rest(p + q, st) == Rest(p, st) + q && Cut(Rest(p, st), q)
  {
    SameStep(p, q, st.mode);
    SameMove(p, q, st);
    CutAtSlice(p, q, Step(p, st.mode).len);
  }

  /** Scanning p + q from st passes the border between the two. */
  predicate Border(p: string, q: string, st: State)
    decreases |p|
  {
    p == "" || (Step(p + q, st.mode) == Step(p, st.mode) && Border(Rest(p, st), q, Next(p, st)))
  }

  lemma BorderNext(p: string, q: string, st: State)
    requires p != "" && Border(p, q, st)
    ensures Step(p + q, st.mode) == Step(p, st.mode) && Border(Rest(p, st), q, Next(p, st))
  {}

  lemma StepAtBorder(p: string, q: string, st: State)
    requires p != "" && Border(p, q, st)
    ensures Step(p + q, st.mode) == Step(p, st.mode) && Next(p + q, st) == Next(p, st)
    ensures Rest(p + q, st) == Rest(p, st) + q && Border(Rest(p, st), q, Next(p, st))
  {
    BorderNext(p, q, st);
    SameMove(p, q, st);
  }

  lemma {:induction false} CutIsBorder(p: string, q: string, st: State)
    requires Cut(p, q)
    ensures Border(p, q, st)
    decreases |p|
  {
    if p != "" {
      StepAtCut(p, q, st);
      CutIsBorder(Rest(p, st), q, Next(p, st));
    }
  }

  lemma {:induction false} EndAtBorder(p: string, q: string, st: State)
    requires Border(p, q, st)
    ensures End(p + q, st) == End(q, End(p, st))
    ensures NoStray(p + q, st) <==> NoStray(p, st) && NoStray(q, End(p, st))
    decreases |p|
  {
    if p == "" {
      assert p + q == q;
    } else {
      StepAtBorder(p, q, st);
      assert (p + q)[0] == p[0];
      EndAtBorder(Rest(p, st), q, Next(p, st));
    }
  }

  /** All that is left is the first half of a comment's end. */
  predicate Halved(p: string, m: Mode) {
    p == "*" && m.Block?
  }

  lemma SlashStep(p: string, q: string, m: Mode)
    requires p != "" && q != "" && q[0] == '/' && !Halved(p, m)
    ensures Step(p + q, m) == Step(p, m)
  {
    assert (p + q)[0] == p[0] && (|p| >= 2 ==> (p + q)[1] == p[1]);
    assert |p| == 1 ==> (p + q)[1] == '/' && p == [p[0]];
  }

  lemma HalvedStays(p: string, st: State)
    requires Halved(p, st.mode)
    ensures End(p, st).mode != Normal
  {
    assert p[1..] == "";
  }

  /** Outside quotes and comments a slash that follows is no part of a token that began before it. */
  lemma {:induction false} SlashIsBorder(p: string, q: string, st: State)
    requires q != "" && q[0] == '/' && End(p, st).mode == Normal
    ensures Border(p, q, st)
    decreases |p|
  {
    if p != "" {
      if Halved(p, st.mode) {
        HalvedStays(p, st);
        assert false;
      }
      SlashStep(p, q, st.mode);
      SlashIsBorder(Rest(p, st), q, Next(p, st));
    }
  }
}
