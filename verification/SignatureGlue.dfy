/** What a gap without whitespace does: a block comment alone does not separate two words. */
module SignatureGlue {
  import opened Text
  import opened Whitespace
  import opened SqlLexer
  import opened SqlScanners
  import opened SqlSignature
  import opened SignaturePieces
  import opened SqlComments
  import opened SignatureHead
  import opened SignatureLayout
  import opened SignatureParameter

  // -- One word -------------------------------------------------------------

  /** A word that is neither quoted nor a mode. */
  predicate OneWord(w: string) {
    GoodName(Bare(w))
  }

  lemma WordAlone(w: string)
    requires Solid(w) && w[0] != '"' && Upper(w) !in MODES
    ensures ParseDeclaration(w) == Bad(NoType)
  {
    assert w[0] in w && LStrip(w) == w;
    WholeWord(w);
    assert w[..|w|] == w && w[|w|..] == "";
  }

  lemma {:induction false} WholeWord(w: string)
    requires forall c :: c in w ==> !IsSpace(c)
    ensures WordLength(w) == |w|
  {
    if w == "" {
    } else {
      assert w[0] in w && forall c :: c in w[1..] ==> c in w;
      WholeWord(w[1..]);
    }
  }

  lemma WordIsRefused(raw: string, w: string)
    requires OneWord(w) && Collapse(Strip(raw, Normal)) == w
    ensures ParseParam(raw) == Bad(NoType)
  {
    DeclarationIsWhole(raw, w);
    WordAlone(w);
  }

  lemma OneWordIsRefused(w: string)
    requires OneWord(w)
    ensures ParseParam(w) == Bad(NoType)
  {
    SqueezeSolid(w);
    assert w[0] in w && w[|w| - 1] in w;
    RStripAppend(w, "");
    assert w + "" == w;
    WordIsRefused(w, w);
  }

  // -- Glued words ----------------------------------------------------------

  /** A bare name and a one-word type with only block comments between them are read as one word, and refused. */
  lemma GluedNameIsRefused(p: Parameter, l: Layout)
    requires Printable(p) && Laid(p, l) && p.mode == "" && p.default.NoDefault? && p.name.Bare? && |p.words| == 1
    requires !Separates(l.gaps[0]) && OneWord(p.name.word + p.words[0])
    ensures ParseParam(Write(p, l)) == Bad(NoType)
  {
    var w, t := p.name.word, p.words[0];
    assert t in p.words;
    CollapsedModeless(p, l);
    assert Joined(p.words, TypeGaps(p, l)) == t && "" + t == t;
    WordsCollapse(p, l, w + t);
    WordIsRefused(Write(p, l), w + t);
  }

  /** A mode and a bare name with only block comments between them are read as one name: the mode is lost. */
  lemma GluedModeIsLost(p: Parameter, l: Layout)
    requires Printable(p) && Laid(p, l) && p.mode != "" && p.default.NoDefault? && p.name.Bare?
    requires !Separates(l.gaps[0]) && Separates(l.gaps[1]) && AllSeparate(TypeGaps(p, l)) && OneWord(p.mode + p.name.word)
    ensures ParseParam(Write(p, l)) == Typed(TypeName(p))
  {
    var w, t := p.mode + p.name.word, TypeName(p);
    GluedModeText(p, l, w);
    WordsCollapse(p, l, Collapsed(p, l));
    JoinIsTidy(p.words);
    GoodWordHead(w, t);
    WholeHeadParses(Write(p, l), "", Bare(w), " ", t);
    Modeless(t);
  }

  lemma GluedModeText(p: Parameter, l: Layout, w: string)
    requires Printable(p) && |l.gaps| == |AllWords(p)| && p.mode != "" && p.name.Bare? && w == p.mode + p.name.word
    requires !Separates(l.gaps[0]) && Separates(l.gaps[1]) && AllSeparate(TypeGaps(p, l))
    ensures Collapsed(p, l) == PrintHead("", Bare(w), " ", TypeName(p))
  {
    CollapsedMode(p, l);
    JoinedLength(p.words, TypeGaps(p, l));
    GluedParts(p.mode, p.name.word, " " + TypeName(p));
    HeadText("", Bare(w), " ", TypeName(p));
  }

  lemma GluedParts(a: string, b: string, x: string)
    ensures a + ("" + (b + x)) == (a + b) + x
  {}

  lemma Modeless(t: string)
    ensures Meaning("", t) == Typed(t)
  {
    assert Upper("") == "";
  }

  lemma GoodWordHead(w: string, t: string)
    requires OneWord(w) && Plain(t) && Tidy(t)
    ensures GoodHead("", Bare(w), " ", t)
  {
    assert (" " + t)[0] == ' ';
  }

  // -- How much a name takes ------------------------------------------------

  lemma {:induction false} WordLengthAtLeast(s: string, n: nat)
    requires n <= |s| && forall i :: 0 <= i < n ==> !IsSpace(s[i])
    ensures WordLength(s) >= n
  {
    if n > 0 {
      assert !IsSpace(s[0]);
      forall i | 0 <= i < n - 1 ensures !IsSpace(s[1..][i]) { assert s[1..][i] == s[i + 1]; }
      WordLengthAtLeast(s[1..], n - 1);
    }
  }

  /** The name ends right in front of x in no case: x begins with space or is read into it. */
  predicate TakesMore(n: Name, x: string) {
    n.Bare? || (x != "" && (x[0] == '"' || IsSpace(x[0])))
  }

  /** What is left behind the first token, d being a beginning of the name and x. */
  predicate ShortRest(n: Name, x: string, rest: string) {
    |LStrip(rest)| <= |x| && (x != "" && TakesMore(n, x) ==> |LStrip(rest)| < |x|)
  }

  lemma SpaceLeftBehind(rest: string, n: nat)
    requires |rest| <= n && (rest != "" ==> IsSpace(rest[0])) && n > 0
    ensures |LStrip(rest)| < n
  {
    if rest != "" {
      LStripIsNoLonger(rest[1..]);
    }
  }

  lemma {:induction false} StopsAtSpace(s: string, n: nat)
    requires n < |s| && IsSpace(s[n]) && forall i :: 0 <= i < n ==> !IsSpace(s[i])
    ensures WordLength(s) == n
  {
    if n > 0 {
      assert !IsSpace(s[0]);
      forall i | 0 <= i < n - 1 ensures !IsSpace(s[1..][i]) { assert s[1..][i] == s[i + 1]; }
      StopsAtSpace(s[1..], n - 1);
    }
  }

  /** d is a beginning of w + x: the first word of d takes w, and more unless a space follows. */
  lemma WordTakes(w: string, x: string, d: string)
    requires Solid(w) && x != "" && |d| > |w| && d <= w + x
    ensures if IsSpace(x[0]) then WordLength(d) == |w| else WordLength(d) > |w|
  {
    assert d[|w|] == x[0];
    forall i | 0 <= i < |w| ensures !IsSpace(d[i]) { assert d[i] == w[i] && w[i] in w; }
    if IsSpace(x[0]) {
      StopsAtSpace(d, |w|);
    } else {
      WordLengthAtLeast(d, |w| + 1);
    }
  }

  lemma WordTakesAll(w: string, x: string, d: string)
    requires Solid(w) && |d| <= |w| && d <= w + x
    ensures WordLength(d) == |d| && d == w[..|d|]
  {
    forall i | 0 <= i < |d| ensures !IsSpace(d[i]) { assert d[i] == w[i] && w[i] in w; }
    WordLengthAtLeast(d, |d|);
  }

  lemma BareRestIsShort(w: string, x: string, d: string, rest: string)
    requires Solid(w) && x != "" && d <= w + x && rest == d[WordLength(d)..]
    ensures |LStrip(rest)| < |x|
  {
    LStripIsNoLonger(rest);
    if |d| <= |w| {
      WordTakesAll(w, x, d);
    } else {
      WordTakes(w, x, d);
      if IsSpace(x[0]) {
        assert rest[0] == d[|w|] == x[0];
        SpaceLeftBehind(rest, |x|);
      }
    }
  }

  /** A beginning of a quoted name is never a shorter quoted name with something behind it. */
  lemma {:induction false} PrefixOfQuoted(s: string, k: nat)
    requires QuotedEnd(s) == Some(|s|) && k < |s|
    ensures QuotedEnd(s[..k]).None? || QuotedEnd(s[..k]) == Some(k)
    decreases |s|
  {
    var p := s[..k];
    if k > 0 {
      assert p[0] == s[0] && (k > 1 ==> p[1] == s[1]);
      if Pair(s, '"', '"') {
        if k > 1 {
          assert p[2..] == s[2..][..k - 2];
          PrefixOfQuoted(s[2..], k - 2);
        } else {
          assert p[1..] == "";
        }
      } else {
        assert p[1..] == s[1..][..k - 1];
        PrefixOfQuoted(s[1..], k - 1);
      }
    }
  }

  /** Another quote behind a quoted name is read into it. */
  lemma {:induction false} QuoteGoesOn(s: string, x: string)
    requires QuotedEnd(s) == Some(|s|) && x != "" && x[0] == '"'
    ensures QuotedEnd(s + x).Some? ==> QuotedEnd(s + x).value > |s| + 1
    decreases |s|
  {
    var z := s + x;
    assert z[0] == s[0] && (|s| > 1 ==> z[1] == s[1]);
    if Pair(s, '"', '"') {
      assert z[2..] == s[2..] + x;
      QuoteGoesOn(s[2..], x);
    } else if s[0] == '"' {
      assert z[1] == '"';
    } else {
      assert z[1..] == s[1..] + x;
      QuoteGoesOn(s[1..], x);
    }
  }

  lemma BehindQuoted(s: string, x: string, y: string, v: nat)
    requires QuotedEnd(s) == Some(|s|) && y != "" && y <= x && QuotedEnd(s + y) == Some(v)
    ensures var rest := (s + y)[v..]; |LStrip(rest)| <= |x| && (x[0] == '"' || IsSpace(x[0]) ==> |LStrip(rest)| < |x|)
  {
    var rest := (s + y)[v..];
    LStripIsNoLonger(rest);
    if y[0] == '"' {
      QuoteGoesOn(s, y);
    } else {
      QuotedEndAppend(s, y);
      assert rest == y;
      if IsSpace(y[0]) { SpaceLeftBehind(rest, |x|); }
    }
  }

  lemma NothingLeft(e: string, v: nat)
    requires v == |e|
    ensures |LStrip(e[v..])| == 0
  {}

  lemma BeginningOfQuoted(s: string, e: string, x: string, v: nat)
    requires QuotedEnd(s) == Some(|s|) && |e| <= |s| && e <= s + x && QuotedEnd(e) == Some(v)
    ensures v == |e|
  {
    assert e == s[..|e|];
    if |e| < |s| {
      PrefixOfQuoted(s, |e|);
    } else {
      assert e == s;
    }
  }

  lemma PrefixBehind(s: string, x: string, e: string) returns (y: string)
    requires e <= s + x && |e| > |s|
    ensures e == s + y && y != "" && y <= x
  {
    y := e[|s|..];
    assert s + x == e + (s + x)[|e|..];
  }

  lemma QuotedRestIsShort(s: string, x: string, e: string, v: nat)
    requires QuotedEnd(s) == Some(|s|) && x != "" && e <= s + x && QuotedEnd(e) == Some(v)
    ensures |LStrip(e[v..])| <= |x| && (x[0] == '"' || IsSpace(x[0]) ==> |LStrip(e[v..])| < |x|)
  {
    if |e| <= |s| {
      BeginningOfQuoted(s, e, x, v);
      NothingLeft(e, v);
    } else {
      var y := PrefixBehind(s, x, e);
      BehindQuoted(s, x, y, v);
    }
  }

  lemma QuotedToken(name: string, x: string, d: string, rest: string)
    requires d != "" && d <= Quote(name) + x && FirstToken(d).Ok? && rest == FirstToken(d).value.1
    ensures var s, e := Doubled(name, '"') + "\"", d[1..];
      e <= s + x && QuotedEnd(e).Some? && rest == e[QuotedEnd(e).value..] && "\"" <= FirstToken(d).value.0
  {
    var s := Doubled(name, '"') + "\"";
    assert Quote(name) + x == "\"" + (s + x);
    assert d[0] == '"' && LStrip(d) == d;
  }

  lemma BareToken(w: string, x: string, d: string, rest: string)
    requires Solid(w) && w[0] != '"' && d != "" && d <= w + x && FirstToken(d).Ok? && rest == FirstToken(d).value.1
    ensures rest == d[WordLength(d)..] && FirstToken(d).value.0 == d[..WordLength(d)]
  {
    assert d[0] == w[0] && w[0] in w && LStrip(d) == d;
  }

  /** There is room for t in x, and more room where the name takes more. */
  predicate Short(n: Name, x: string, t: string) {
    |t| <= |x| && (TakesMore(n, x) ==> |t| < |x|)
  }

  lemma RestIsShort(n: Name, x: string, d: string, rest: string)
    requires GoodName(n) && x != "" && d != "" && d <= PrintName(n) + x && FirstToken(d).Ok? && rest == FirstToken(d).value.1
    ensures ShortRest(n, x, rest)
  {
    if n.Bare? {
      BareToken(n.word, x, d, rest);
      BareRestIsShort(n.word, x, d, rest);
    } else {
      var s := Doubled(n.text, '"') + "\"";
      DoubledCloses(n.text);
      QuotedToken(n.text, x, d, rest);
      QuotedRestIsShort(s, x, d[1..], QuotedEnd(d[1..]).value);
    }
  }

  // -- No mode arises -------------------------------------------------------

  /** The first letter of VARIADIC does not come again. */
  lemma OneV(w: string, i: nat)
    requires 0 < i < |w| && w[i] == 'v'
    ensures Upper(w) != "VARIADIC"
  {
    assert Upper(w)[i] == 'V';
  }

  lemma BareNoVariadic(w: string, x: string, d: string)
    requires Solid(w) && Upper(w) !in MODES && x != "" && d <= w + x && (x[0] == 'v' || IsSpace(x[0]))
    ensures Upper(d[..WordLength(d)]) != "VARIADIC" || d[WordLength(d)..] == ""
  {
    if |d| <= |w| {
      WordTakesAll(w, x, d);
    } else {
      WordTakes(w, x, d);
      var token := d[..WordLength(d)];
      if IsSpace(x[0]) {
        assert token == w;
      } else {
        assert token[|w|] == x[0];
        OneV(token, |w|);
      }
    }
  }

  /** No name and what follows it are read as the mode VARIADIC, if the latter begins with space or with a v. */
  lemma NoVariadic(n: Name, x: string, d: string, token: string, rest: string)
    requires GoodName(n) && x != "" && d != "" && d <= PrintName(n) + x && FirstToken(d) == Ok((token, rest))
    requires x[0] == 'v' || IsSpace(x[0])
    ensures Upper(token) != "VARIADIC" || rest == ""
  {
    if n.Quoted? {
      QuotedToken(n.text, x, d, rest);
      assert token != "" && Upper(token)[0] == '"';
    } else {
      BareToken(n.word, x, d, rest);
      BareNoVariadic(n.word, x, d);
    }
  }

  // -- How much is left for the type ----------------------------------------

  lemma TokenRestIsShort(text: string)
    requires FirstToken(text).Ok?
    ensures |FirstToken(text).value.1| <= |LStrip(text)|
  {}

  lemma TypeOfRestIsShort(rest: string, t: string)
    requires TypeOfRest(rest, false) == Typed(t)
    ensures |t| <= |LStrip(rest)|
  {}

  /** The type comes out of what is left behind the first token, or a mode VARIADIC does. */
  lemma TypeIsShort(d: string, token: string, rest: string, t: string)
    requires FirstToken(d) == Ok((token, rest)) && ParseDeclaration(d) == Typed(t)
    ensures (Upper(token) == "VARIADIC" && rest != "" && t != "" && t[0] == 'v') || |t| <= |LStrip(rest)|
  {
    var mode := Upper(token);
    assert FirstToken("").Err?;
    if mode == "IN" || mode == "INOUT" {
      TokenRestIsShort(rest);
      var more := FirstToken(rest).value.1;
      TypeOfRestIsShort(more, t);
      LStripIsNoLonger(more);
    } else if mode != "VARIADIC" {
      TypeOfRestIsShort(rest, t);
    }
  }

  lemma DeclarationIsShort(n: Name, x: string, d: string, t: string)
    requires GoodName(n) && x != "" && d <= PrintName(n) + x && ParseDeclaration(d) == Typed(t)
    requires t != "" && (IsSpace(x[0]) || x[0] == t[0])
    ensures Short(n, x, t)
  {
    assert d != "" && FirstToken(d).Ok?;
    var (token, rest) := FirstToken(d).value;
    RestIsShort(n, x, d, rest);
    TypeIsShort(d, token, rest, t);
    if t[0] == 'v' {
      NoVariadic(n, x, d, token, rest);
    }
  }

  // -- Behind a mode --------------------------------------------------------

  lemma ModeToken(mode: string, z: string)
    requires Upper(mode) in MODES && (z == "" || z[0] == ' ')
    ensures FirstToken(mode + z) == Ok((mode, z))
  {
    ModeIsPlain(mode);
    if z == "" {
      assert mode + z == mode && mode[0] in mode && LStrip(mode) == mode;
      WholeWord(mode);
      assert mode[..|mode|] == mode && mode[|mode|..] == "";
    } else {
      SolidFirstToken(mode, z);
    }
  }

  lemma CutOffBehind(w: string, tail: string, param: string, v: nat) returns (z: string)
    requires param == w + tail && w != "" && !IsSpace(w[|w| - 1]) && |w| <= v <= |param|
    ensures RStrip(param[..v]) == w + z && z <= tail
  {
    var cut := tail[..v - |w|];
    z := RStrip(cut);
    CutBehind(w, tail, v - |w|);
    assert z <= cut && cut <= tail;
  }

  /** Whatever a default cuts off, the mode stays. */
  lemma ModeStays(raw: string, mode: string, tail: string, param: string) returns (z: string)
    requires Upper(mode) in MODES && Collapse(Strip(raw, Normal)) == param && param == mode + tail
    requires tail != "" && tail[0] == ' '
    ensures Declaration(raw) == mode + z && z <= tail
  {
    var v := DefaultAt(param, START, None);
    if v.None? {
      DeclarationIsWhole(raw, param);
      z := tail;
    } else {
      DefaultBehindMode(mode, tail);
      DeclarationCutAt(raw, param, v.value);
      z := CutOffBehind(mode, tail, param, v.value);
    }
  }

  lemma DefaultBehindMode(mode: string, tail: string)
    requires Upper(mode) in MODES && tail != "" && tail[0] == ' '
    ensures var v := DefaultAt(mode + tail, START, None);
      mode != "" && !IsSpace(mode[|mode| - 1]) && (v.Some? ==> |mode| <= v.value <= |mode + tail|)
  {
    ModeIsPlain(mode);
    assert mode[|mode| - 1] in mode;
    DefaultAtCut(mode, tail, START, None);
  }

  lemma CutBehind(w: string, tail: string, k: nat)
    requires w != "" && !IsSpace(w[|w| - 1]) && k <= |tail|
    ensures RStrip((w + tail)[..|w| + k]) == w + RStrip(tail[..k])
  {
    assert (w + tail)[..|w| + k] == w + tail[..k];
    RStripAppend(w, tail[..k]);
  }

  lemma SkippedMode(mode: string, z: string)
    requires Upper(mode) == "OUT" || Upper(mode) == "TABLE"
    requires z == "" || z[0] == ' '
    ensures ParseDeclaration(mode + z) == Skip
  {
    ModeToken(mode, z);
  }

  /** Behind the other modes the type is what is left behind the name, in front of which the mode's space is dropped. */
  lemma TypeBehindMode(mode: string, z: string, t: string)
    requires Upper(mode) in MODES && Upper(mode) != "OUT" && Upper(mode) != "TABLE" && (z == "" || z[0] == ' ')
    requires ParseDeclaration(mode + z) == Meaning(mode, t)
    ensures z != "" && FirstToken(z[1..]).Ok? && |t| <= |LStrip(FirstToken(z[1..]).value.1)|
  {
    ModeToken(mode, z);
    assert FirstToken("").Err? && FirstToken(z).Ok?;
    SpaceBeforeToken(z[1..]);
    assert z == " " + z[1..];
    var rest := FirstToken(z).value.1;
    MarkedType(rest, Upper(mode) == "VARIADIC", t);
  }

  lemma MarkedType(rest: string, variadic: bool, t: string)
    requires TypeOfRest(rest, variadic) == Typed(if variadic then VARIADIC + t else t)
    ensures |t| <= |LStrip(rest)|
  {
    if variadic {
      assert (VARIADIC + t)[|VARIADIC|..] == t && (VARIADIC + Trim(rest))[|VARIADIC|..] == Trim(rest);
    }
  }

  lemma MeaningIsShort(mode: string, n: Name, x: string, z: string, t: string)
    requires Upper(mode) in MODES && Upper(mode) != "OUT" && Upper(mode) != "TABLE"
    requires GoodName(n) && x != "" && z <= " " + (PrintName(n) + x) && ParseDeclaration(mode + z) == Meaning(mode, t)
    ensures Short(n, x, t)
  {
    TypeBehindMode(mode, z, t);
    SpaceOff(z, PrintName(n) + x);
    LeftIsShort(n, x, z[1..], t);
  }

  lemma SpaceOff(z: string, s: string)
    requires z != "" && z <= " " + s
    ensures z[1..] <= s
  {
    assert (" " + s)[1..] == s;
  }

  lemma LeftIsShort(n: Name, x: string, y: string, t: string)
    requires GoodName(n) && x != "" && y <= PrintName(n) + x && FirstToken(y).Ok? && |t| <= |LStrip(FirstToken(y).value.1)|
    ensures Short(n, x, t)
  {
    assert FirstToken("").Err?;
    RestIsShort(n, x, y, FirstToken(y).value.1);
  }

  // -- The exact condition --------------------------------------------------

  /** b stands between the name and the type's words j, which are shorter than the type t when two of them are glued. */
  lemma RightIsSpaced(n: Name, b: string, j: string, t: string)
    requires Spacing(b) && j != "" && t != "" && j[0] == t[0] && |j| <= |t| && Short(n, b + j, t)
    ensures |j| == |t| && (b == "" ==> n.Quoted? && t[0] != '"')
  {
    var x := b + j;
    assert x[0] == if b == "" then j[0] else ' ';
  }

  /** The name ends and the words of the type are separate. */
  predicate Separated(p: Parameter, l: Layout)
    requires |l.gaps| == |AllWords(p)|
  {
    NameEnds(p, l) && AllSeparate(TypeGaps(p, l))
  }

  lemma ShortIsSeparated(p: Parameter, l: Layout, b: string, j: string)
    requires Printable(p) && |l.gaps| == |AllWords(p)| && b == Shown(NameGap(p, l)) && j == Joined(p.words, TypeGaps(p, l))
    requires Short(Tidied(p.name), b + j, TypeName(p))
    ensures Separated(p, l)
  {
    TypesAgree(p.words, TypeGaps(p, l));
    JoinedLength(p.words, TypeGaps(p, l));
    RightIsSpaced(Tidied(p.name), b, j, TypeName(p));
  }

  lemma ModelessIsSeparated(p: Parameter, l: Layout)
    requires Printable(p) && Laid(p, l) && p.default.NoDefault? && p.mode == ""
    requires ParseParam(Write(p, l)) == Typed(TypeName(p))
    ensures Separated(p, l)
  {
    var raw, b, j := Write(p, l), Shown(l.gaps[0]), Joined(p.words, TypeGaps(p, l));
    WordsCollapse(p, l, Collapsed(p, l));
    DeclarationIsPrefix(raw, Collapsed(p, l));
    CollapsedModeless(p, l);
    TidiedIsGood(p.name);
    TypesAgree(p.words, TypeGaps(p, l));
    assert (b + j)[0] == if b == "" then j[0] else ' ';
    DeclarationIsShort(Tidied(p.name), b + j, Declaration(raw), TypeName(p));
    ShortIsSeparated(p, l, b, j);
  }

  /** Behind a mode and a gap that separates, what the parser sees is the mode, a space and the rest. */
  lemma ModeText(p: Parameter, l: Layout, b: string, j: string)
    requires Printable(p) && |l.gaps| == |AllWords(p)| && p.mode != "" && Separates(l.gaps[0])
    requires b == Shown(l.gaps[1]) && j == Joined(p.words, TypeGaps(p, l))
    ensures Collapsed(p, l) == p.mode + (" " + (PrintName(Tidied(p.name)) + (b + j)))
  {
    CollapsedMode(p, l);
  }

  lemma ModeIsSeparated(p: Parameter, l: Layout)
    requires Printable(p) && Laid(p, l) && p.default.NoDefault? && p.mode != "" && Separates(l.gaps[0])
    requires Upper(p.mode) != "OUT" && Upper(p.mode) != "TABLE" && ParseParam(Write(p, l)) == Meaning(p.mode, TypeName(p))
    ensures Separated(p, l)
  {
    var raw, b, j := Write(p, l), Shown(l.gaps[1]), Joined(p.words, TypeGaps(p, l));
    ModeText(p, l, b, j);
    WordsCollapse(p, l, Collapsed(p, l));
    TidiedIsGood(p.name);
    TypesAgree(p.words, TypeGaps(p, l));
    MeantIsShort(raw, p.mode, Tidied(p.name), b + j, TypeName(p));
    ShortIsSeparated(p, l, b, j);
  }

  lemma MeantIsShort(raw: string, mode: string, n: Name, x: string, t: string)
    requires Upper(mode) in MODES && Upper(mode) != "OUT" && Upper(mode) != "TABLE" && GoodName(n) && x != ""
    requires Collapse(Strip(raw, Normal)) == mode + (" " + (PrintName(n) + x)) && ParseParam(raw) == Meaning(mode, t)
    ensures Short(n, x, t)
  {
    var tail := " " + (PrintName(n) + x);
    var z := ModeStays(raw, mode, tail, mode + tail);
    MeaningIsShort(mode, n, x, z, t);
  }

  lemma SkippedIsSkipped(p: Parameter, l: Layout)
    requires Printable(p) && Laid(p, l) && p.default.NoDefault? && p.mode != "" && Separates(l.gaps[0])
    requires Upper(p.mode) == "OUT" || Upper(p.mode) == "TABLE"
    ensures ParseParam(Write(p, l)) == Skip
  {
    var raw, b, j := Write(p, l), Shown(l.gaps[1]), Joined(p.words, TypeGaps(p, l));
    ModeText(p, l, b, j);
    WordsCollapse(p, l, Collapsed(p, l));
    SkippedText(raw, p.mode, PrintName(Tidied(p.name)) + (b + j));
  }

  lemma SkippedText(raw: string, mode: string, y: string)
    requires (Upper(mode) == "OUT" || Upper(mode) == "TABLE") && Collapse(Strip(raw, Normal)) == mode + (" " + y)
    ensures ParseParam(raw) == Skip
  {
    var z := ModeStays(raw, mode, " " + y, mode + (" " + y));
    SkippedMode(mode, z);
  }

  lemma TypesAgree(words: seq<string>, gaps: seq<Gap>)
    requires words != [] && |words| == |gaps| && TidyWords(words)
    ensures var j, t := Joined(words, gaps), Join(" ", words); j != "" && t != "" && j[0] == t[0]
  {
    TidyAreWords(words);
    JoinedIsWord(words, gaps);
    JoinIsTidy(words);
    assert words[0] in words;
  }

  /**
   Without a default, and with the mode's gap separating if there is a mode: a
   parameter is read right exactly when it is skipped, or every gap inside its type
   holds whitespace or a line comment, and so does the gap behind its name, unless
   the name is quoted and no quote follows.
   */
  lemma LaidParameterParsesIff(p: Parameter, l: Layout)
    requires Printable(p) && Laid(p, l) && p.default.NoDefault? && (p.mode != "" ==> Separates(l.gaps[0]))
    ensures var skipped := Upper(p.mode) == "OUT" || Upper(p.mode) == "TABLE";
      ParseParam(Write(p, l)) == Meaning(p.mode, TypeName(p)) <==> skipped || Separated(p, l)
  {
    Modeless(TypeName(p));
    if Separated(p, l) {
      LaidParameterParses(p, l);
    }
    if Upper(p.mode) == "OUT" || Upper(p.mode) == "TABLE" {
      SkippedIsSkipped(p, l);
    } else if ParseParam(Write(p, l)) == Meaning(p.mode, TypeName(p)) {
      if p.mode == "" { ModelessIsSeparated(p, l); } else { ModeIsSeparated(p, l); }
    }
  }
}
