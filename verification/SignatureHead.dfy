/** One parameter of a function, and the parser on its text once comments and whitespace runs are gone. */
module SignatureHead {
  import opened Text
  import opened Whitespace
  import opened SqlLexer
  import opened SqlScanners
  import opened SqlSignature
  import opened SignaturePieces

  datatype Name = Quoted(text: string) | Bare(word: string)

  const MODES := {"IN", "OUT", "INOUT", "VARIADIC", "TABLE"}

  /** A mode in any case, or none. */
  predicate GoodMode(mode: string) {
    mode == "" || Upper(mode) in MODES
  }

  /** A bare name is one word that cannot be taken for a mode. */
  predicate GoodName(n: Name) {
    n.Bare? ==> Solid(n.word) && n.word[0] != '"' && Plain(n.word) && Upper(n.word) !in MODES
  }

  /** An equals sign, or the word DEFAULT in any case. */
  predicate Separator(w: string) {
    w == "=" || Upper(w) == "DEFAULT"
  }

  /** Whitespace in its collapsed form. */
  predicate Spacing(b: string) {
    b == "" || b == " "
  }

  function PrintName(n: Name): string {
    if n.Quoted? then Quote(n.text) else n.word
  }

  function Front(mode: string): string {
    if mode == "" then "" else mode + " "
  }

  function PrintHead(mode: string, n: Name, b: string, t: string): string {
    Front(mode) + (PrintName(n) + (b + t))
  }

  /** What the parser has to make of a parameter. */
  function Meaning(mode: string, t: string): Parsed {
    if Upper(mode) == "OUT" || Upper(mode) == "TABLE" then Skip
    else Typed(if Upper(mode) == "VARIADIC" then VARIADIC + t else t)
  }

  // -- Modes and names ------------------------------------------------------

  lemma ModeIsPlain(mode: string)
    requires Upper(mode) in MODES
    ensures Plain(mode) && Solid(mode) && mode[0] != '"'
  {
    var u := Upper(mode);
    assert u == "IN" || u == "OUT" || u == "INOUT" || u == "VARIADIC" || u == "TABLE";
    forall c | c in mode ensures TypeChar(c) && !IsSpace(c) {
      var i :| 0 <= i < |mode| && mode[i] == c;
      UpperKeeps(mode, i);
    }
    forall i | 0 <= i < |mode| ensures !WholeDefault(mode, i) {
      if |mode| - i >= 7 {
        SameUpper(mode[i..i + 7], "DEFAULT");
        assert Upper(mode[i..i + 7])[0] == u[i] == "VARIADIC"[i];
      }
    }
    SpelledTypeIsPlain(mode);
  }

  lemma FrontIsPlain(mode: string)
    requires GoodMode(mode)
    ensures Plain(Front(mode))
    ensures forall x: string :: x != "" ==> Cut(Front(mode), x) && WordCut(Front(mode), x)
  {
    if mode == "" {
      CodeIsPiece("");
    } else {
      ModeIsPlain(mode);
      SpaceIsPlain();
      PlainConcat(mode, " ");
    }
  }

  function Tidied(n: Name): Name {
    if n.Quoted? then Quoted(Squeeze(n.text)) else n
  }

  lemma TidiedIsGood(n: Name)
    requires GoodName(n)
    ensures GoodName(Tidied(n))
  {}

  lemma NameIsPlain(n: Name)
    requires GoodName(n)
    ensures var s := PrintName(n); Plain(s) && s != "" && !IsSpace(s[0]) && !IsSpace(s[|s| - 1])
    ensures Squeeze(PrintName(n)) == PrintName(Tidied(n))
  {
    if n.Quoted? {
      QuoteIsPlain(n.text);
      SqueezeQuote(n.text);
    } else {
      SqueezeSolid(n.word);
      assert n.word[0] in n.word && n.word[|n.word| - 1] in n.word;
    }
  }

  /** Behind its closing quote a name needs no space, unless another quote follows. */
  predicate EndsName(n: Name, x: string) {
    x != "" && (x[0] == ' ' || (n.Quoted? && x[0] != '"'))
  }

  /** A quoted name is never read as a mode, and a bare one is not by choice. */
  lemma NameIsFirstToken(n: Name, rest: string)
    requires GoodName(n) && EndsName(n, rest)
    ensures FirstToken(PrintName(n) + rest) == Ok((PrintName(n), rest))
    ensures Upper(PrintName(n)) !in MODES
  {
    if n.Quoted? {
      QuotedFirstToken(n.text, rest);
      assert Upper(Quote(n.text))[0] == '"';
    } else {
      SolidFirstToken(n.word, rest);
    }
  }

  // -- The head of a parameter ----------------------------------------------

  predicate GoodHead(mode: string, n: Name, b: string, t: string) {
    GoodMode(mode) && GoodName(n) && Spacing(b) && Plain(t) && Tidy(t) && EndsName(n, b + t)
  }

  lemma SpacedIsPlain(b: string, t: string)
    requires Spacing(b) && Plain(t) && Tidy(t)
    ensures Plain(b + t)
  {
    if b == "" {
      assert b + t == t;
    } else {
      SpaceIsPlain();
      PlainConcat(" ", t);
    }
  }

  lemma NameThenCut(n: Name, x: string)
    requires EndsName(n, x)
    ensures Cut(PrintName(n), x) && WordCut(PrintName(n), x)
  {}

  lemma HeadIsPlain(mode: string, n: Name, b: string, t: string)
    requires GoodHead(mode, n, b, t)
    ensures var h := PrintHead(mode, n, b, t); Plain(h) && h != "" && !IsSpace(h[|h| - 1])
  {
    var name, x := PrintName(n), b + t;
    SpacedIsPlain(b, t);
    NameIsPlain(n);
    NameThenCut(n, x);
    PlainConcat(name, x);
    FrontThenPlain(mode, name + x);
    LastOfThree(Front(mode), name, x);
  }

  lemma FrontThenPlain(mode: string, named: string)
    requires GoodMode(mode) && Plain(named) && named != ""
    ensures Plain(Front(mode) + named)
  {
    FrontIsPlain(mode);
    PlainConcat(Front(mode), named);
  }

  lemma LastOfThree(a: string, b: string, c: string)
    requires c != ""
    ensures var s := a + (b + c); s != "" && s[|s| - 1] == c[|c| - 1]
  {}

  lemma TrimType(b: string, t: string)
    requires Spacing(b) && Tidy(t)
    ensures Trim(b + t) == t
  {
    assert b == "" ==> b + t == t;
    assert (" " + t)[1..] == t && LStrip(t) == t;
    RStripAppend(t, "");
    assert t + "" == t;
  }

  lemma BareHeadParses(name: string, x: string, t: string)
    requires FirstToken(name + x) == Ok((name, x)) && Upper(name) !in MODES && Trim(x) == t && t != ""
    ensures ParseDeclaration(name + x) == Typed(t)
  {}

  lemma ModeHeadParses(mode: string, named: string, name: string, x: string, t: string)
    requires Upper(mode) in MODES && FirstToken(mode + (" " + named)) == Ok((mode, " " + named))
    requires FirstToken(" " + named) == Ok((name, x)) && Trim(x) == t && t != ""
    ensures ParseDeclaration(mode + (" " + named)) == Meaning(mode, t)
  {}

  lemma SpaceBeforeToken(named: string)
    ensures FirstToken(" " + named) == FirstToken(named)
  {
    assert (" " + named)[1..] == named && LStrip(" " + named) == LStrip(named);
  }

  lemma ModedHeadParses(mode: string, named: string, name: string, x: string, t: string)
    requires Upper(mode) in MODES && FirstToken(named) == Ok((name, x)) && Trim(x) == t && t != ""
    ensures ParseDeclaration(mode + (" " + named)) == Meaning(mode, t)
  {
    ModeIsPlain(mode);
    SolidFirstToken(mode, " " + named);
    SpaceBeforeToken(named);
    ModeHeadParses(mode, named, name, x, t);
  }

  lemma HeadText(mode: string, n: Name, b: string, t: string)
    ensures var named := PrintName(n) + (b + t); PrintHead(mode, n, b, t) == if mode == "" then named else mode + (" " + named)
  {
    var named := PrintName(n) + (b + t);
    assert "" + named == named;
    Assoc(mode, " ", named);
  }

  lemma NamedParses(mode: string, name: string, x: string, t: string)
    requires GoodMode(mode) && FirstToken(name + x) == Ok((name, x)) && Upper(name) !in MODES && Trim(x) == t && t != ""
    ensures ParseDeclaration(if mode == "" then name + x else mode + (" " + (name + x))) == Meaning(mode, t)
  {
    if mode == "" {
      BareHeadParses(name, x, t);
      assert Upper("") == "";
    } else {
      ModedHeadParses(mode, name + x, name, x, t);
    }
  }

  lemma HeadParses(mode: string, n: Name, b: string, t: string)
    requires GoodHead(mode, n, b, t)
    ensures ParseDeclaration(PrintHead(mode, n, b, t)) == Meaning(mode, t)
  {
    NameIsFirstToken(n, b + t);
    TrimType(b, t);
    NamedParses(mode, PrintName(n), b + t, t);
    HeadText(mode, n, b, t);
  }

  // -- The default behind it ------------------------------------------------

  lemma DefaultIsWord(w: string)
    requires Upper(w) == "DEFAULT"
    ensures DefaultWord(w) && forall c :: c in w ==> TypeChar(c) && !IsSpace(c)
  {
    assert w[..7] == w;
    forall c | c in w ensures TypeChar(c) && !IsSpace(c) {
      var i :| 0 <= i < |w| && w[i] == c;
      UpperKeeps(w, i);
    }
  }

  /** Text at which a scan outside any quote stops. */
  predicate Stops(w: string) {
    w != "" && Code(w, Normal) && (w[0] == '=' || DefaultWord(w))
  }

  lemma SeparatorChars(w: string)
    requires Separator(w)
    ensures w != "" && forall c :: c in w ==> !IsSpace(c) && !Pairing(c) && c != ',' && c != '(' && c != ')'
  {
    if w != "=" {
      DefaultIsWord(w);
    }
  }

  lemma SeparatorStops(w: string)
    requires Separator(w) && w != "" && !Pairing(w[0])
    ensures Stops(w)
  {
    if w != "=" {
      DefaultIsWord(w);
    }
  }

  lemma SeparatorIsCode(w: string)
    requires Separator(w)
    ensures Solid(w) && Piece(w) && Strip(w, Normal) == w && Stops(w)
    ensures !Pairing(w[0]) && !Pairing(w[|w| - 1])
  {
    SeparatorChars(w);
    CodeIsPiece(w);
    assert w[0] in w && w[|w| - 1] in w;
    SeparatorStops(w);
  }

  /** The word DEFAULT is only seen as a word of its own. */
  predicate StandsFree(prev: Option<char>, w: string, r: string) {
    w == "=" || ((prev.None? || !IsWord(prev.value)) && (r == "" || !IsWord(r[0])))
  }

  lemma StopHere(w: string, r: string, prev: Option<char>)
    requires Separator(w) && StandsFree(prev, w, r)
    ensures DefaultAt(w + r, START, prev) == Some(0)
  {
    SeparatorIsCode(w);
    if w != "=" {
      DefaultWordAtCut(w, r);
    }
    StepAtCut(w, r, START);
    assert (w + r)[0] == w[0];
  }

  lemma SpaceIsNoDefault(s: string)
    requires s != "" && s[0] == ' '
    ensures Step(s, Normal) == Move(1, Normal) && Next(s, START) == START && !DefaultWord(s)
  {
    if |s| >= 7 {
      assert Upper(s[..7])[0] == ' ';
    }
  }

  lemma StopIsFound(b: string, w: string, r: string, prev: Option<char>)
    requires Spacing(b) && Separator(w) && StandsFree(if b == "" then prev else None, w, r)
    ensures DefaultAt(b + (w + r), START, prev) == Some(|b|)
  {
    if b == "" {
      assert b + (w + r) == w + r;
      StopHere(w, r, prev);
    } else {
      var s, t := " " + (w + r), w + r;
      SpaceIsNoDefault(s);
      StopHere(w, r, Some(' '));
      assert s[1..] == t;
      DefaultNext(s, START, prev, t, 0);
    }
  }

  /** A closed head without a default, not ending in space. */
  predicate Declares(h: string) {
    End(h, START) == START && DefaultAt(h, START, None).None? && h != "" && !IsSpace(h[|h| - 1])
  }

  lemma FoundBehind(h: string, tail: string, n: nat)
    requires Declares(h) && Cut(h, tail) && WordCut(h, tail)
    requires DefaultAt(tail, START, Last(h, None)) == Some(n)
    ensures DefaultAt(h + tail, START, None) == Some(|h| + n)
  {
    DefaultAtCut(h, tail, START, None);
    ShiftSome(|h|, n);
  }

  lemma ShiftSome(k: nat, n: nat)
    ensures Shift(k, Some(n)) == Some(k + n)
  {}

  lemma SpaceIsCutOff(h: string, b: string, x: string)
    requires h != "" && !IsSpace(h[|h| - 1]) && Spacing(b)
    ensures RStrip((h + (b + x))[..|h| + |b|]) == h
  {
    assert (h + (b + x))[..|h| + |b|] == h + b;
    RStripAppend(h, b);
    assert RStrip(" ") == RStrip(" "[..0]);
    assert h + "" == h;
  }

  lemma DefaultTail(h: string, b: string, w: string, r: string)
    requires h != "" && Spacing(b) && Separator(w) && StandsFree(if b == "" then Last(h, None) else None, w, r)
    ensures Cut(h, b + (w + r)) && WordCut(h, b + (w + r))
  {
    SeparatorIsCode(w);
    var tail := b + (w + r);
    assert tail[0] == if b == "" then w[0] else ' ';
  }

  lemma DefaultIsFound(h: string, b: string, w: string, r: string)
    requires Declares(h) && Spacing(b) && Separator(w) && StandsFree(if b == "" then Last(h, None) else None, w, r)
    ensures DefaultAt(h + (b + (w + r)), START, None) == Some(|h| + |b|)
  {
    var tail := b + (w + r);
    StopIsFound(b, w, r, Last(h, None));
    DefaultTail(h, b, w, r);
    FoundBehind(h, tail, |b|);
  }

  /** A default behind a head is found there, and cutting it off leaves the head. */
  lemma DefaultIsCutOff(h: string, b: string, w: string, r: string, param: string, n: nat)
    requires Declares(h) && Spacing(b) && Separator(w) && StandsFree(if b == "" then Last(h, None) else None, w, r)
    requires param == h + (b + (w + r)) && n == |h| + |b|
    ensures DefaultAt(param, START, None) == Some(n) && RStrip(param[..n]) == h
  {
    DefaultIsFound(h, b, w, r);
    SpaceIsCutOff(h, b, w + r);
  }

  /** With a default the declaration is what stands in front of it. */
  lemma DeclarationInFront(text: string, param: string, h: string, n: nat)
    requires Collapse(Strip(text, Normal)) == param && DefaultAt(param, START, None) == Some(n) && RStrip(param[..n]) == h
    ensures Declaration(text) == h
  {
    DeclarationCutAt(text, param, n);
  }

  lemma DeclarationCutAt(text: string, param: string, n: nat)
    requires Collapse(Strip(text, Normal)) == param && DefaultAt(param, START, None) == Some(n)
    ensures n <= |param| && Declaration(text) == RStrip(param[..n])
  {}

  lemma DeclarationIsWhole(text: string, param: string)
    requires Collapse(Strip(text, Normal)) == param && DefaultAt(param, START, None).None?
    ensures Declaration(text) == param
  {}

  /** With or without a default, the declaration is a beginning of the collapsed text. */
  lemma DeclarationIsPrefix(text: string, param: string)
    requires Collapse(Strip(text, Normal)) == param
    ensures Declaration(text) <= param
  {}

  /** A text that collapses to a head parses as the head does. */
  lemma WholeHeadParses(raw: string, mode: string, n: Name, b: string, t: string)
    requires GoodHead(mode, n, b, t) && Collapse(Strip(raw, Normal)) == PrintHead(mode, n, b, t)
    ensures ParseParam(raw) == Meaning(mode, t)
  {
    var h := PrintHead(mode, n, b, t);
    HeadIsPlain(mode, n, b, t);
    DeclarationIsWhole(raw, h);
    HeadParses(mode, n, b, t);
  }
}
