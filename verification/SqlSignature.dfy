/** From the raw argument list of a CREATE FUNCTION to its identity arguments. */
module SqlSignature {
  import opened Text
  import opened Whitespace
  import opened SqlLexer
  import opened SqlScanners

  datatype Error = EmptyToken | UnterminatedIdentifier | NoType | UnterminatedArguments
  datatype Result<+T> = Ok(value: T) | Err(error: Error)

  // -- DEFAULT or = ---------------------------------------------------------

  /** The word DEFAULT, in any case, not followed by a word character. */
  predicate DefaultWord(s: string) {
    |s| >= 7 && Upper(s[..7]) == "DEFAULT" && (|s| == 7 || !IsWord(s[7]))
  }

  /** A default starts here: an equals sign or the word, at top level; prev is the character before. */
  predicate DefaultHere(s: string, st: State, prev: Option<char>)
    requires s != ""
  {
    && Code(s, st.mode) && st.depth == 0
    && (s[0] == '=' || (DefaultWord(s) && (prev.None? || !IsWord(prev.value))))
  }

  function DefaultAt(s: string, st: State, prev: Option<char>): (r: Option<nat>)
    ensures r.Some? ==> r.value < |s|
    decreases |s|
  {
    if s == "" then None
    else if DefaultHere(s, st, prev) then Some(0)
    else
      var n := Step(s, st.mode).len;
      Shift(n, DefaultAt(Rest(s, st), Next(s, st), Some(s[n - 1])))
  }

  lemma DefaultNext(s: string, st: State, prev: Option<char>, t: string, k: nat)
    requires s != "" && !DefaultHere(s, st, prev) && t == Rest(s, st)
    ensures var n := Step(s, st.mode).len;
      Shift(k, DefaultAt(s, st, prev)) == Shift(k + n, DefaultAt(t, Next(s, st), Some(s[n - 1])))
  {}

  /** The character in front of position i. */
  function Before(text: string, i: nat): Option<char>
    requires i <= |text|
  {
    if i == 0 then None else Some(text[i - 1])
  }

  /** One turn of the scan for a default. */
  method DefaultTurn(param: string, i: nat, st: State) returns (found: bool, i': nat, st': State)
    requires i < |param| && st.mode != Block(0)
    ensures found <==> DefaultHere(param[i..], st, Before(param, i))
    ensures found ==> i' == i
    ensures !found ==> i < i' <= |param| && i' == i + Step(param[i..], st.mode).len
                       && st' == Next(param[i..], st) && st'.mode != Block(0)
  {
    var code, mode;
    var depth := st.depth;
    code, i', mode := LexTurn(param, i, st.mode);
    found := false;
    assert param[i..][0] == param[i];
    if code {
      if param[i] == '(' {
        depth := depth + 1;
      } else if param[i] == ')' {
        if depth > 0 {
          depth := depth - 1;
        }
      } else if depth == 0 && param[i] == '=' {
        found := true;
      } else if depth == 0 && IsAlpha(param[i]) {
        var maybeDefault := if i + 7 <= |param| then param[i..i + 7] else param[i..];
        if Upper(maybeDefault) == "DEFAULT" {
          assert |maybeDefault| == 7 && param[i..][..7] == maybeDefault;
          var beforeOk := i == 0 || !IsWord(param[i - 1]);
          var afterOk := i + 7 >= |param| || !IsWord(param[i + 7]);
          found := beforeOk && afterOk;
        }
      }
      if !found {
        i' := i + 1;
      }
    }
    st' := State(mode, depth);
  }

  lemma DefaultTurns(text: string, i: nat, st: State, found: bool, i': nat, st': State)
    requires i < |text| && (found <==> DefaultHere(text[i..], st, Before(text, i)))
    requires !found ==> i <= i' <= |text| && i' == i + Step(text[i..], st.mode).len && st' == Next(text[i..], st)
    ensures Shift(i, DefaultAt(text[i..], st, Before(text, i))) ==
      if found then Some(i) else Shift(i', DefaultAt(text[i'..], st', Before(text, i')))
  {
    if !found {
      assert text[i..][i' - i - 1] == text[i' - 1];
      DefaultNext(text[i..], st, Before(text, i), text[i'..], i);
    }
  }

  lemma DefaultEnds(st: State, prev: Option<char>, n: nat)
    ensures Shift(n, DefaultAt("", st, prev)) == None
  {}

  method ScanDefaultSeparator(param: string) returns (r: Option<nat>)
    ensures r == DefaultAt(param, START, None)
  {
    var i, st := 0, START;
    assert param[0..] == param;
    ghost var goal := DefaultAt(param, START, None);
    assert goal == Shift(0, goal);
    while i < |param|
      invariant 0 <= i <= |param| && st.mode != Block(0)
      invariant goal == Shift(i, DefaultAt(param[i..], st, Before(param, i)))
    {
      var found, i', st' := DefaultTurn(param, i, st);
      DefaultTurns(param, i, st, found, i', st');
      if found {
        return Some(i');
      }
      i, st := i', st';
    }
    DefaultEnds(st, Before(param, i), i);
    assert param[i..] == "";
    return None;
  }

  // -- Tokens ---------------------------------------------------------------

  /** Length up to and including the closing quote of an identifier whose opening quote is behind. */
  function QuotedEnd(s: string): (r: Option<nat>)
    ensures r.Some? ==> 0 < r.value <= |s|
    decreases |s|
  {
    if s == "" then None
    else if Pair(s, '"', '"') then Shift(2, QuotedEnd(s[2..]))
    else if s[0] == '"' then Some(1)
    else Shift(1, QuotedEnd(s[1..]))
  }

  /** Length of the leading run of non-space characters. */
  function WordLength(s: string): (n: nat)
    ensures n <= |s|
  {
    if s == "" || IsSpace(s[0]) then 0 else 1 + WordLength(s[1..])
  }

  function FirstToken(text: string): Result<(string, string)> {
    var t := LStrip(text);
    if t == "" then Err(EmptyToken)
    else if t[0] == '"' then
      var n := QuotedEnd(t[1..]);
      if n.None? then Err(UnterminatedIdentifier) else Ok((t[..1 + n.value], t[1 + n.value..]))
    else
      var n := WordLength(t);
      Ok((t[..n], t[n..]))
  }

  method SplitFirstToken(text: string) returns (r: Result<(string, string)>)
    ensures r == FirstToken(text)
  {
    var t := LStrip(text);
    if t == "" {
      return Err(EmptyToken);
    }
    if t[0] == '"' {
      var i := 1;
      ghost var goal := Shift(1, QuotedEnd(t[1..]));
      while i < |t|
        invariant 1 <= i <= |t| && goal == Shift(i, QuotedEnd(t[i..]))
      {
        QuotedTurn(t, i);
        if PairAt(t, i, '"', '"') {
          i := i + 2;
        } else {
          if t[i] == '"' {
            return Ok((t[..i + 1], t[i + 1..]));
          }
          i := i + 1;
        }
      }
      return Err(UnterminatedIdentifier);
    }
    var n := WordLength(t);
    return Ok((t[..n], t[n..]));
  }

  lemma QuotedTurn(t: string, i: nat)
    requires i < |t|
    ensures Shift(i, QuotedEnd(t[i..])) ==
      if PairAt(t, i, '"', '"') then Shift(i + 2, QuotedEnd(t[i + 2..]))
      else if t[i] == '"' then Some(i + 1) else Shift(i + 1, QuotedEnd(t[i + 1..]))
  {
    var s := t[i..];
    assert s[0] == t[i] && s[1..] == t[i + 1..] && (i + 1 < |t| ==> s[1] == t[i + 1] && s[2..] == t[i + 2..]);
  }

  // -- Types ----------------------------------------------------------------

  const TYPE_ALIASES: map<string, string> := map[
    "bool" := "boolean", "float8" := "double precision", "int" := "integer", "int2" := "smallint",
    "int4" := "integer", "int8" := "bigint", "timestamptz" := "timestamp with time zone",
    "timetz" := "time with time zone", "varchar" := "character varying"
  ]

  /** `s.replace(" " + c, c)`. */
  function DropSpaceBefore(s: string, c: char): string
    decreases |s|
  {
    if s == "" then ""
    else if Pair(s, ' ', c) then [c] + DropSpaceBefore(s[2..], c)
    else [s[0]] + DropSpaceBefore(s[1..], c)
  }

  /** Trailing [] taken off one by one; returns the base name and the suffix. */
  function TakeArrays(s: string): (string, string)
    decreases |s|
  {
    if |s| >= 2 && s[|s| - 2..] == "[]" then
      TrimIsNoLonger(s[..|s| - 2]);
      var (base, suffix) := TakeArrays(Trim(s[..|s| - 2]));
      (base, suffix + "[]")
    else (s, "")
  }

  lemma TrimIsNoLonger(s: string)
    ensures |Trim(s)| <= |s|
  {
    LStripIsNoLonger(s);
  }

  lemma LStripIsNoLonger(s: string)
    ensures |LStrip(s)| <= |s|
  {}

  const VARIADIC := "variadic "

  function TypeAlias(name: string): string {
    if name in TYPE_ALIASES then TYPE_ALIASES[name] else name
  }

  /** The alias of the name in front of its array brackets. */
  function Aliased(lowered: string): string {
    var (base, arrays) := TakeArrays(lowered);
    TypeAlias(base) + arrays
  }

  /** Whitespace and case taken out of a spelling. */
  function Lowered(typeName: string): string {
    Lower(DropSpaceBefore(DropSpaceBefore(Collapse(typeName), '['), ']'))
  }

  function NormalForm(lowered: string): string {
    if VARIADIC <= lowered then VARIADIC + Aliased(Trim(lowered[|VARIADIC|..])) else Aliased(lowered)
  }

  function NormalizeTypeName(typeName: string): string {
    NormalForm(Lowered(typeName))
  }

  // -- Parameters -----------------------------------------------------------

  /** Typed holds the spelling that is then normalised. */
  datatype Parsed = Skip | Typed(spelling: string) | Bad(error: Error)

  /** One parameter, without its comments, whitespace runs and default. */
  function Declaration(raw: string): string {
    var param := Collapse(Strip(raw, Normal));
    var d := DefaultAt(param, START, None);
    if d.Some? then RStrip(param[..d.value]) else param
  }

  function TypeOfRest(rest: string, variadic: bool): Parsed {
    var t := Trim(rest);
    if t == "" then Bad(NoType) else Typed(if variadic then VARIADIC + t else t)
  }

  function ParseDeclaration(declaration: string): Parsed {
    var first := FirstToken(declaration);
    if first.Err? then Bad(first.error) else
      var (token, rest) := first.value;
      var mode := Upper(token);
      if mode == "OUT" || mode == "TABLE" then Skip
      else if mode == "IN" || mode == "INOUT" || mode == "VARIADIC" then
        var second := FirstToken(rest);
        if second.Err? then Bad(second.error) else TypeOfRest(second.value.1, mode == "VARIADIC")
      else TypeOfRest(rest, false)
  }

  function ParseParam(raw: string): Parsed {
    if Collapse(Strip(raw, Normal)) == "" then Skip else ParseDeclaration(Declaration(raw))
  }

  /** The types of the parameters in order, or the first error. */
  function Collect(results: seq<Parsed>): Result<seq<string>> {
    if results == [] then Ok([]) else
      match results[0]
      case Bad(e) => Err(e)
      case Skip => Collect(results[1..])
      case Typed(spelling) => Prepended([NormalizeTypeName(spelling)], Collect(results[1..]))
  }

  function Map(f: string -> Parsed, raws: seq<string>): (r: seq<Parsed>)
    ensures |r| == |raws| && forall i :: 0 <= i < |raws| ==> r[i] == f(raws[i])
  {
    seq(|raws|, i requires 0 <= i < |raws| => f(raws[i]))
  }

  function Identity(rawArgs: string): Result<string> {
    var types := Collect(Map(ParseParam, Split(rawArgs, START)));
    if types.Err? then Err(types.error) else Ok(Join(", ", types.value))
  }

  /** types in front of what the remaining parameters give. */
  function Prepended(types: seq<string>, r: Result<seq<string>>): Result<seq<string>> {
    if r.Err? then r else Ok(types + r.value)
  }

  /** The loop body: one raw parameter. */
  method ParseParameter(raw: string) returns (r: Parsed)
    ensures r == ParseParam(raw)
  {
    var stripped := StripSqlComments(raw);
    var param := Collapse(stripped);
    if param == "" {
      return Skip;
    }
    var defaultIndex := ScanDefaultSeparator(param);
    if defaultIndex.Some? {
      param := RStrip(param[..defaultIndex.value]);
    }
    r := ParseCut(param);
  }

  /** The rest of the loop body, on the parameter without its default. */
  method ParseCut(param: string) returns (r: Parsed)
    ensures r == ParseDeclaration(param)
  {
    var first := SplitFirstToken(param);
    if first.Err? {
      return Bad(first.error);
    }
    var (token, remainder) := first.value;
    var mode := Upper(token);
    var includeMode := false;
    if mode in {"IN", "OUT", "INOUT", "VARIADIC", "TABLE"} {
      if mode in {"OUT", "TABLE"} {
        return Skip;
      }
      includeMode := mode == "VARIADIC";
      var second := SplitFirstToken(remainder);
      if second.Err? {
        return Bad(second.error);
      }
      remainder := second.value.1;
    }
    remainder := Trim(remainder);
    if remainder == "" {
      return Bad(NoType);
    }
    return Typed(if includeMode then VARIADIC + remainder else remainder);
  }

  lemma CollectNext(types: seq<string>, results: seq<Parsed>, i: nat)
    requires i < |results|
    ensures Prepended(types, Collect(results[i..])) ==
      match results[i]
      case Bad(e) => Err(e)
      case Skip => Prepended(types, Collect(results[i + 1..]))
      case Typed(spelling) => Prepended(types + [NormalizeTypeName(spelling)], Collect(results[i + 1..]))
  {
    var c := Collect(results[i + 1..]);
    assert results[i..][1..] == results[i + 1..];
    if results[i].Typed? && c.Ok? {
      var name := NormalizeTypeName(results[i].spelling);
      assert types + ([name] + c.value) == (types + [name]) + c.value;
    }
  }

  method ParseIdentityArguments(rawArgs: string) returns (r: Result<string>)
    ensures r == Identity(rawArgs)
  {
    var types: seq<string> := [];
    var parts := SplitTopLevelCommas(rawArgs);
    ghost var results := Map(ParseParam, parts);
    CollectEnds(results, []);
    for i := 0 to |parts|
      invariant Collect(results) == Prepended(types, Collect(results[i..]))
    {
      CollectNext(types, results, i);
      var parsed := ParseParameter(parts[i]);
      match parsed
      case Bad(e) => return Err(e);
      case Skip =>
      case Typed(spelling) => types := types + [NormalizeTypeName(spelling)];
    }
    CollectEnds(results, types);
    return Ok(Join(", ", types));
  }

  lemma CollectEnds(results: seq<Parsed>, types: seq<string>)
    ensures Collect(results) == Prepended([], Collect(results[0..]))
    ensures Prepended(types, Collect(results[|results|..])) == Ok(types)
  {
    assert results[0..] == results;
    if Collect(results).Ok? {
      assert [] + Collect(results).value == Collect(results).value;
    }
    assert types + [] == types;
  }

  /** The identity arguments of the function whose argument list opens at openIndex. */
  function IdentityAt(sql: string, openIndex: nat): Result<string>
    requires openIndex < |sql|
  {
    var close := Shift(openIndex + 1, Matching(sql[openIndex + 1..], State(Normal, 1)));
    if close.None? then Err(UnterminatedArguments) else Identity(sql[openIndex + 1..close.value])
  }

  method ParseArgumentsAt(sql: string, openIndex: nat) returns (r: Result<string>)
    requires openIndex < |sql|
    ensures r == IdentityAt(sql, openIndex)
  {
    var close := FindMatchingParen(sql, openIndex);
    if close.None? {
      return Err(UnterminatedArguments);
    }
    r := ParseIdentityArguments(sql[openIndex + 1..close.value]);
  }
}
