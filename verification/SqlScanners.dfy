/**
 The scanners of the SQL API policy checker: comment stripping, splitting at
 top-level commas, and the search for a matching parenthesis. Each loop keeps its
 own flags; each is proved against the shared lexical rules.
 */
module SqlScanners {
  import opened Text
  import opened SqlLexer

  // -- Specifications -------------------------------------------------------

  /** What comment stripping keeps of the next token. */
  function Kept(s: string, m: Mode): string
    requires s != ""
  {
    var v := Step(s, m);
    match m
    case Line => if s[0] == '\n' then "\n" else ""
    case Block(_) => ""
    case Normal => if v.len == 2 then "" else [s[0]]
    case _ => if v.len == 2 then [s[0], s[1]] else [s[0]]
  }

  function Strip(s: string, m: Mode): string
    decreases |s|
  {
    if s == "" then "" else Kept(s, m) + Strip(s[Step(s, m).len..], Step(s, m).mode)
  }

  predicate TopComma(s: string, st: State)
    requires s != ""
  {
    Code(s, st.mode) && s[0] == ',' && st.depth == 0
  }

  /** The parts between top-level commas. */
  function Split(s: string, st: State): (parts: seq<string>)
    ensures parts != []
    decreases |s|
  {
    if s == "" then [""]
    else
      var more := Split(Rest(s, st), Next(s, st));
      if TopComma(s, st) then [""] + more
      else [s[..Step(s, st.mode).len] + more[0]] + more[1..]
  }

  /** Offset of the close parenthesis that brings the depth to zero. */
  function Matching(s: string, st: State): (r: Option<nat>)
    ensures r.Some? ==> r.value < |s|
    decreases |s|
  {
    if s == "" then None
    else if Code(s, st.mode) && s[0] == ')' && st.depth <= 1 then Some(0)
    else
      var r := Matching(Rest(s, st), Next(s, st));
      if r.None? then None else Some(Step(s, st.mode).len + r.value)
  }

  // -- The loops ------------------------------------------------------------

  predicate PairAt(text: string, i: nat, a: char, b: char) {
    i + 1 < |text| && text[i] == a && text[i + 1] == b
  }

  /** One turn of the comment stripper. */
  method StripTurn(text: string, i: nat, mode: Mode, out: string) returns (i': nat, mode': Mode, out': string)
    requires i < |text| && mode != Block(0)
    ensures i < i' <= |text| && mode' != Block(0)
    ensures Step(text[i..], mode) == Move(i' - i, mode') && out' == out + Kept(text[i..], mode)
  {
    i', mode', out' := i + 1, mode, out;
    match mode
    case Line =>
      if text[i] == '\n' {
        mode' := Normal;
        out' := out + "\n";
      }
    case Block(level) =>
      if PairAt(text, i, '/', '*') {
        mode' := Block(level + 1);
        i' := i + 2;
      } else if PairAt(text, i, '*', '/') {
        mode' := if level == 1 then Normal else Block(level - 1);
        i' := i + 2;
      }
    case Single =>
      if PairAt(text, i, '\'', '\'') {
        out' := out + "''";
        i' := i + 2;
      } else {
        out' := out + [text[i]];
        if text[i] == '\'' {
          mode' := Normal;
        }
      }
    case Double =>
      if PairAt(text, i, '"', '"') {
        out' := out + "\"\"";
        i' := i + 2;
      } else {
        out' := out + [text[i]];
        if text[i] == '"' {
          mode' := Normal;
        }
      }
    case Normal =>
      if PairAt(text, i, '-', '-') {
        mode' := Line;
        i' := i + 2;
      } else if PairAt(text, i, '/', '*') {
        mode' := Block(1);
        i' := i + 2;
      } else {
        out' := out + [text[i]];
        if text[i] == '\'' {
          mode' := Single;
        } else if text[i] == '"' {
          mode' := Double;
        }
      }
  }

  lemma StripNext(s: string, m: Mode, t: string, out: string)
    requires s != "" && t == s[Step(s, m).len..]
    ensures out + Strip(s, m) == (out + Kept(s, m)) + Strip(t, Step(s, m).mode)
  {}

  method StripSqlComments(text: string) returns (out: string)
    ensures out == Strip(text, Normal)
  {
    out := "";
    var i, mode := 0, Normal;
    assert text[0..] == text;
    ghost var goal := Strip(text, Normal);
    while i < |text|
      invariant 0 <= i <= |text| && mode != Block(0)
      invariant goal == out + Strip(text[i..], mode)
    {
      ghost var s, m, before := text[i..], mode, out;
      i, mode, out := StripTurn(text, i, mode, out);
      StripNext(s, m, text[i..], before);
    }
  }

  /** The part of the other loops that skips quotes and comments; code characters are left to the caller. */
  method LexTurn(text: string, i: nat, mode: Mode) returns (code: bool, i': nat, mode': Mode)
    requires i < |text| && mode != Block(0)
    ensures i <= i' <= |text| && mode' != Block(0)
    ensures code <==> Code(text[i..], mode)
    ensures if code then i' == i && mode' == mode else i < i' && Step(text[i..], mode) == Move(i' - i, mode')
  {
    code, i', mode' := false, i + 1, mode;
    match mode
    case Line =>
      if text[i] == '\n' {
        mode' := Normal;
      }
    case Block(level) =>
      if PairAt(text, i, '/', '*') {
        mode' := Block(level + 1);
        i' := i + 2;
      } else if PairAt(text, i, '*', '/') {
        mode' := if level == 1 then Normal else Block(level - 1);
        i' := i + 2;
      }
    case Single =>
      if PairAt(text, i, '\'', '\'') {
        i' := i + 2;
      } else if text[i] == '\'' {
        mode' := Normal;
      }
    case Double =>
      if PairAt(text, i, '"', '"') {
        i' := i + 2;
      } else if text[i] == '"' {
        mode' := Normal;
      }
    case Normal =>
      if PairAt(text, i, '-', '-') {
        mode' := Line;
        i' := i + 2;
      } else if PairAt(text, i, '/', '*') {
        mode' := Block(1);
        i' := i + 2;
      } else if text[i] == '\'' {
        mode' := Single;
      } else if text[i] == '"' {
        mode' := Double;
      } else {
        code, i' := true, i;
      }
  }

  /** pre put in front of the first part. */
  function Onto(pre: string, parts: seq<string>): seq<string>
    requires parts != []
  {
    [pre + parts[0]] + parts[1..]
  }

  lemma OntoEmpty(parts: seq<string>)
    requires parts != []
    ensures Onto("", parts) == parts
  {
    assert "" + parts[0] == parts[0];
  }

  lemma OntoTwice(a: string, b: string, parts: seq<string>)
    requires parts != []
    ensures Onto(a, Onto(b, parts)) == Onto(a + b, parts)
  {
    assert a + (b + parts[0]) == (a + b) + parts[0];
  }

  /** One turn of the splitter: the token goes to the part being read, or a comma ends it. */
  lemma SplitTurns(pre: string, s: string, st: State, t: string)
    requires s != "" && t == Rest(s, st)
    ensures var more := Split(t, Next(s, st));
      Onto(pre, Split(s, st)) ==
        if TopComma(s, st) then [pre] + more else Onto(pre + s[..Step(s, st.mode).len], more)
  {
    var more := Split(t, Next(s, st));
    if TopComma(s, st) {
      assert pre + "" == pre;
    } else {
      OntoTwice(pre, s[..Step(s, st.mode).len], more);
    }
  }

  method SplitTurn(text: string, start: nat, i: nat, st: State, parts: seq<string>)
    returns (start': nat, i': nat, st': State, parts': seq<string>)
    requires start <= i < |text| && st.mode != Block(0)
    ensures start' <= i' <= |text| && i' == i + Step(text[i..], st.mode).len
    ensures st' == Next(text[i..], st) && st'.mode != Block(0)
    ensures if TopComma(text[i..], st) then parts' == parts + [text[start..i]] && start' == i'
            else parts' == parts && start' == start
  {
    start', parts' := start, parts;
    var code, mode;
    var depth := st.depth;
    code, i', mode := LexTurn(text, i, st.mode);
    if code {
      if text[i] == '(' {
        depth := depth + 1;
      } else if text[i] == ')' {
        if depth > 0 {
          depth := depth - 1;
        }
      } else if text[i] == ',' && depth == 0 {
        parts' := parts + [text[start..i]];
        start' := i + 1;
      }
      i' := i + 1;
    }
    st' := State(mode, depth);
  }

  lemma SplitNext(text: string, start: nat, i: nat, st: State, j: nat, st': State, parts: seq<string>)
    requires start <= i < j <= |text|
    requires j == i + Step(text[i..], st.mode).len && st' == Next(text[i..], st)
    ensures parts + Onto(text[start..i], Split(text[i..], st)) ==
      if TopComma(text[i..], st) then (parts + [text[start..i]]) + Onto(text[j..j], Split(text[j..], st'))
      else parts + Onto(text[start..j], Split(text[j..], st'))
  {
    var s := text[i..];
    SplitTurns(text[start..i], s, st, text[j..]);
    OntoEmpty(Split(text[j..], st'));
    assert text[start..i] + s[..j - i] == text[start..j];
    assert text[j..j] == "";
  }

  method SplitTopLevelCommas(text: string) returns (parts: seq<string>)
    ensures parts == Split(text, START)
  {
    parts := [];
    var start, i, st := 0, 0, START;
    ghost var goal := Split(text, START);
    OntoEmpty(goal);
    assert text[0..] == text;
    while i < |text|
      invariant 0 <= start <= i <= |text| && st.mode != Block(0)
      invariant goal == parts + Onto(text[start..i], Split(text[i..], st))
    {
      ghost var start0, i0, st0, parts0 := start, i, st, parts;
      start, i, st, parts := SplitTurn(text, start, i, st, parts);
      SplitNext(text, start0, i0, st0, i, st, parts0);
    }
    assert text[i..] == "" && text[start..i] + "" == text[start..];
    parts := parts + [text[start..]];
  }

  /** One turn of the search: done at the close parenthesis that leaves depth zero. */
  method MatchTurn(text: string, i: nat, st: State) returns (done: bool, i': nat, st': State)
    requires i < |text| && st.mode != Block(0) && st.depth > 0
    ensures done <==> Code(text[i..], st.mode) && text[i] == ')' && st.depth == 1
    ensures done ==> i' == i
    ensures !done ==> i < i' <= |text| && i' == i + Step(text[i..], st.mode).len && st' == Next(text[i..], st)
                      && st'.depth > 0 && st'.mode != Block(0)
  {
    var code, mode;
    var depth := st.depth;
    code, i', mode := LexTurn(text, i, st.mode);
    done := false;
    if code {
      if text[i] == '(' {
        depth := depth + 1;
      } else if text[i] == ')' {
        depth := depth - 1;
        done := depth == 0;
      }
      if !done {
        i' := i + 1;
      }
    }
    st' := State(mode, depth);
  }

  function Shift(n: nat, r: Option<nat>): Option<nat> {
    if r.None? then None else Some(n + r.value)
  }

  lemma MatchingNext(s: string, st: State, t: string, n: nat)
    requires s != "" && !(Code(s, st.mode) && s[0] == ')' && st.depth <= 1)
    requires t == Rest(s, st)
    ensures Shift(n, Matching(s, st)) == Shift(n + Step(s, st.mode).len, Matching(t, Next(s, st)))
  {}

  lemma MatchingTurn(text: string, i: nat, st: State, done: bool, i': nat, st': State)
    requires i < |text| && st.depth > 0 && (done <==> Code(text[i..], st.mode) && text[i] == ')' && st.depth == 1)
    requires !done ==> i <= i' <= |text| && i' == i + Step(text[i..], st.mode).len && st' == Next(text[i..], st)
    ensures Shift(i, Matching(text[i..], st)) == if done then Some(i) else Shift(i', Matching(text[i'..], st'))
  {
    if !done {
      MatchingNext(text[i..], st, text[i'..], i);
    }
  }

  lemma MatchingEnds(st: State, n: nat)
    ensures Shift(n, Matching("", st)) == None
  {}

  method FindMatchingParen(text: string, openIndex: nat) returns (r: Option<nat>)
    requires openIndex < |text|
    ensures r == Shift(openIndex + 1, Matching(text[openIndex + 1..], State(Normal, 1)))
  {
    var i, st := openIndex + 1, State(Normal, 1);
    ghost var goal := Shift(i, Matching(text[i..], st));
    while i < |text|
      invariant openIndex < i <= |text| && st.mode != Block(0) && st.depth > 0
      invariant goal == Shift(i, Matching(text[i..], st))
    {
      var done, i', st' := MatchTurn(text, i, st);
      MatchingTurn(text, i, st, done, i', st');
      if done {
        return Some(i');
      }
      i, st := i', st';
    }
    MatchingEnds(st, i);
    assert text[i..] == "";
    return None;
  }
}
