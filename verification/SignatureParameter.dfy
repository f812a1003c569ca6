/** One parameter in any layout: modes, names, types and defaults parse to their meaning. */
module SignatureParameter {
  import opened Text
  import opened Whitespace
  import opened SqlLexer
  import opened SqlScanners
  import opened SqlLaws
  import opened SqlSignature
  import opened SignaturePieces
  import opened SqlComments
  import opened SignatureHead
  import opened SignatureLayout

  // -- One parameter --------------------------------------------------------

  datatype Default = NoDefault | Default(separator: string, value: string)

  /** mode is empty when it is left out; the type is given by its words. */
  datatype Parameter = Parameter(mode: string, name: Name, words: seq<string>, default: Default)

  /** The gap in front, those behind each word, and those around the default's expression. */
  datatype Layout = Layout(lead: Gap, gaps: seq<Gap>, after: Gap, end: Gap)

  function TypeName(p: Parameter): string {
    Join(" ", p.words)
  }

  /**
   Any mode in any case; any quoted name; a type without comments that holds no
   default itself; any default expression whose quotes, comments and parentheses
   close and that has no comma at top level.
   */
  predicate Printable(p: Parameter) {
    && GoodMode(p.mode) && GoodName(p.name) && p.words != [] && TidyWords(p.words) && Plain(TypeName(p))
    && (p.default.Default? ==> Separator(p.default.separator) && Piece(p.default.value))
  }

  function AllWords(p: Parameter): seq<string> {
    (if p.mode == "" then [] else [p.mode]) + ([PrintName(p.name)] + p.words)
  }

  function Tail(d: Default, l: Layout): string {
    if d.NoDefault? then "" else d.separator + (GapText(l.after) + (d.value + GapText(l.end)))
  }

  function Write(p: Parameter, l: Layout): string
    requires |l.gaps| == |AllWords(p)|
  {
    GapText(l.lead) + (Flow(AllWords(p), l.gaps) + Tail(p.default, l))
  }

  /** Whitespace, closed block comments and line comments between words that are closed themselves. */
  predicate Laid(p: Parameter, l: Layout) {
    && |l.gaps| == |AllWords(p)| && GoodGap(l.lead) && Gaps(l.gaps) && GoodGap(l.after) && GoodGap(l.end)
    && Fits(AllWords(p), l.gaps, Tail(p.default, l), START, START)
    && (p.default.Default? ==> Apart(p.default.value, l.end, ""))
  }

  /** The gap behind the name. */
  function NameGap(p: Parameter, l: Layout): Gap
    requires |l.gaps| == |AllWords(p)|
  {
    l.gaps[if p.mode == "" then 0 else 1]
  }

  function TypeGaps(p: Parameter, l: Layout): seq<Gap>
    requires |l.gaps| == |AllWords(p)|
  {
    l.gaps[if p.mode == "" then 1 else 2..]
  }

  /** The name's gap separates; only behind a quoted name it need not, unless another quote follows. */
  predicate NameEnds(p: Parameter, l: Layout)
    requires |l.gaps| == |AllWords(p)|
  {
    Separates(NameGap(p, l)) || (p.name.Quoted? && !("\"" <= TypeName(p)))
  }

  /** Around an equals sign space is free; the word DEFAULT has to be a word of its own. */
  predicate DefaultStands(p: Parameter, l: Layout)
    requires |l.gaps| == |AllWords(p)|
  {
    p.default.Default? && p.default.separator != "=" ==>
      var t, v := TypeName(p), Strip(p.default.value, Normal);
      && (Separates(l.gaps[|l.gaps| - 1]) || (t != "" && !IsWord(t[|t| - 1])))
      && (Separates(l.after) || v == "" || !IsWord(v[0]))
  }

  /** Each gap that has to separate holds whitespace or a line comment; a block comment leaves nothing. */
  predicate Spaced(p: Parameter, l: Layout)
    requires |l.gaps| == |AllWords(p)|
  {
    && (p.mode != "" ==> Separates(l.gaps[0])) && NameEnds(p, l)
    && AllSeparate(TypeGaps(p, l)) && DefaultStands(p, l)
  }

  // -- Scanning and collapsing its text -------------------------------------

  /** A default's expression and the gaps around it. */
  function StrippedValue(d: Default, l: Layout): string
    requires d.Default?
  {
    GapSpace(l.after) + (Strip(d.value, Normal) + GapSpace(l.end))
  }

  function StrippedTail(d: Default, l: Layout): string {
    if d.NoDefault? then "" else d.separator + StrippedValue(d, l)
  }

  lemma ValueReads(v: string, g: Gap)
    requires Piece(v) && GoodGap(g) && Apart(v, g, "")
    ensures Reads(v + GapText(g), START, START, Strip(v, Normal) + GapSpace(g))
  {
    ReadsNothing(START);
    GapThenReads(g, 0, "", START, "");
    assert GapText(g) + "" == GapText(g) && GapSpace(g) + "" == GapSpace(g);
    WordIsBorder(v, g, "", START);
    ReadsConcat(v, GapText(g), START, START, START, Strip(v, Normal), GapSpace(g));
  }

  lemma DefaultReads(w: string, a: Gap, x: string, o: string)
    requires Separator(w) && GoodGap(a) && Reads(x, START, START, o)
    ensures Reads(w + (GapText(a) + x), START, START, w + (GapSpace(a) + o))
  {
    SeparatorIsCode(w);
    GapThenReads(a, 0, x, START, o);
    CutIsBorder(w, GapText(a) + x, START);
    ReadsConcat(w, GapText(a) + x, START, START, START, w, GapSpace(a) + o);
  }

  lemma TailReads(d: Default, l: Layout)
    requires GoodGap(l.after) && GoodGap(l.end)
    requires d.Default? ==> Separator(d.separator) && Piece(d.value) && Apart(d.value, l.end, "")
    ensures Reads(Tail(d, l), START, START, StrippedTail(d, l))
  {
    if d.NoDefault? {
      ReadsNothing(START);
    } else {
      ValueReads(d.value, l.end);
      DefaultReads(d.separator, l.after, d.value + GapText(l.end), Strip(d.value, Normal) + GapSpace(l.end));
    }
  }

  lemma TidyAreWords(words: seq<string>)
    requires TidyWords(words)
    ensures Words(words)
  {}

  lemma WordInFront(w: string, words: seq<string>)
    requires Word(w) && Words(words)
    ensures Words([w] + words)
  {}

  lemma ModeIsWord(mode: string)
    requires Upper(mode) in MODES
    ensures Word(mode)
  {
    ModeIsPlain(mode);
    assert mode[0] in mode && mode[|mode| - 1] in mode;
  }

  lemma AllAreWords(p: Parameter)
    requires Printable(p)
    ensures AllWords(p) != [] && Words(AllWords(p))
  {
    var named := [PrintName(p.name)] + p.words;
    NameIsPlain(p.name);
    TidyAreWords(p.words);
    WordInFront(PrintName(p.name), p.words);
    if p.mode != "" {
      ModeIsWord(p.mode);
      WordInFront(p.mode, named);
    } else {
      assert [] + named == named;
    }
  }

  function StrippedText(p: Parameter, l: Layout): string
    requires |l.gaps| == |AllWords(p)|
  {
    GapSpace(l.lead) + (Stripped(AllWords(p), l.gaps) + StrippedTail(p.default, l))
  }

  lemma TextReads(p: Parameter, l: Layout)
    requires Printable(p) && Laid(p, l)
    ensures Reads(Write(p, l), START, START, StrippedText(p, l))
  {
    AllAreWords(p);
    TailReads(p.default, l);
    var flow, o := Flow(AllWords(p), l.gaps) + Tail(p.default, l), Stripped(AllWords(p), l.gaps) + StrippedTail(p.default, l);
    FlowReads(AllWords(p), l.gaps, Tail(p.default, l), START, START, START, StrippedTail(p.default, l));
    GapThenReads(l.lead, 0, flow, START, o);
  }

  lemma ReadsIsPiece(s: string, o: string)
    requires Reads(s, START, START, o)
    ensures Piece(s) && Strip(s, Normal) == o
  {}

  /** A parameter in any layout is one piece of the list. */
  lemma TextIsPiece(p: Parameter, l: Layout)
    requires Printable(p) && Laid(p, l)
    ensures Piece(Write(p, l))
  {
    TextReads(p, l);
    ReadsIsPiece(Write(p, l), StrippedText(p, l));
  }

  lemma TextStrips(p: Parameter, l: Layout)
    requires Printable(p) && Laid(p, l)
    ensures Strip(Write(p, l), Normal) == StrippedText(p, l)
  {
    TextReads(p, l);
    ReadsIsPiece(Write(p, l), StrippedText(p, l));
  }

  /** The words as the parser sees them, in front of the default. */
  function Collapsed(p: Parameter, l: Layout): string
    requires |l.gaps| == |AllWords(p)|
  {
    Joined(AllWords(p), l.gaps)
  }

  lemma TailIsFlush(d: Default, l: Layout)
    requires d.Default? ==> Separator(d.separator)
    ensures Flush(StrippedTail(d, l))
  {
    if d.Default? {
      SeparatorIsCode(d.separator);
      assert d.separator[0] in d.separator;
    }
  }

  /** What collapsing needs to know of a text. */
  predicate Collapsible(text: string, lead: Gap, words: seq<string>, gaps: seq<Gap>, x: string) {
    && words != [] && |words| == |gaps| && Words(words) && Gaps(gaps) && GoodGap(lead) && Flush(x)
    && Strip(text, Normal) == GapSpace(lead) + (Stripped(words, gaps) + x)
  }

  lemma TextIsCollapsible(p: Parameter, l: Layout)
    requires Printable(p) && Laid(p, l)
    ensures Collapsible(Write(p, l), l.lead, AllWords(p), l.gaps, StrippedTail(p.default, l))
  {
    TextStrips(p, l);
    AllAreWords(p);
    TailIsFlush(p.default, l);
  }

  lemma CollapsibleCollapses(text: string, lead: Gap, words: seq<string>, gaps: seq<Gap>, x: string, j: string, b: string)
    requires Collapsible(text, lead, words, gaps, x) && j == Joined(words, gaps) && b == Shown(gaps[|gaps| - 1])
    ensures Collapse(Strip(text, Normal)) == RStrip(j + (b + Squeeze(x)))
  {
    CollapsedText(lead, words, gaps, x, j);
  }

  lemma WithoutTail(j: string, b: string)
    requires Word(j) && Spacing(b)
    ensures RStrip(j + (b + "")) == j
  {
    assert b + "" == b;
    RStripAppend(j, b);
    assert RStrip(" ") == RStrip(" "[..0]);
    assert j + "" == j;
  }

  lemma WordsAlone(text: string, lead: Gap, words: seq<string>, gaps: seq<Gap>, j: string)
    requires Collapsible(text, lead, words, gaps, "") && j == Joined(words, gaps)
    ensures Collapse(Strip(text, Normal)) == j && j != ""
  {
    var b := Shown(gaps[|gaps| - 1]);
    JoinedIsWord(words, gaps);
    CollapsibleCollapses(text, lead, words, gaps, "", j, b);
    WithoutTail(j, b);
  }

  /** Without a default the words are all there is. */
  lemma WordsCollapse(p: Parameter, l: Layout, j: string)
    requires Printable(p) && Laid(p, l) && p.default.NoDefault? && j == Collapsed(p, l)
    ensures Collapse(Strip(Write(p, l), Normal)) == j && j != ""
  {
    TextIsCollapsible(p, l);
    WordsAlone(Write(p, l), l.lead, AllWords(p), l.gaps, j);
  }

  // -- Its head -------------------------------------------------------------

  function HeadOf(p: Parameter, l: Layout): string
    requires |l.gaps| == |AllWords(p)|
  {
    PrintHead(p.mode, Tidied(p.name), Shown(NameGap(p, l)), TypeName(p))
  }

  lemma JoinedName(n: Name, words: seq<string>, gaps: seq<Gap>)
    requires GoodName(n) && words != [] && |gaps| == |words| + 1
    ensures Joined([PrintName(n)] + words, gaps) == PrintName(Tidied(n)) + (Shown(gaps[0]) + Joined(words, gaps[1..]))
  {
    NameIsPlain(n);
    assert ([PrintName(n)] + words)[1..] == words;
  }

  lemma JoinedMode(mode: string, words: seq<string>, gaps: seq<Gap>)
    requires Upper(mode) in MODES && words != [] && |gaps| == |words| + 1
    ensures Joined([mode] + words, gaps) == mode + (Shown(gaps[0]) + Joined(words, gaps[1..]))
  {
    ModeIsPlain(mode);
    SqueezeSolid(mode);
    assert ([mode] + words)[1..] == words;
  }

  lemma CollapsedModeless(p: Parameter, l: Layout)
    requires Printable(p) && |l.gaps| == |AllWords(p)| && p.mode == ""
    ensures Collapsed(p, l) == PrintName(Tidied(p.name)) + (Shown(l.gaps[0]) + Joined(p.words, TypeGaps(p, l)))
  {
    assert AllWords(p) == [PrintName(p.name)] + p.words;
    JoinedName(p.name, p.words, l.gaps);
  }

  lemma CollapsedMode(p: Parameter, l: Layout)
    requires Printable(p) && |l.gaps| == |AllWords(p)| && p.mode != ""
    ensures Collapsed(p, l) ==
      p.mode + (Shown(l.gaps[0]) + (PrintName(Tidied(p.name)) + (Shown(l.gaps[1]) + Joined(p.words, TypeGaps(p, l)))))
  {
    assert AllWords(p) == [p.mode] + ([PrintName(p.name)] + p.words);
    JoinedMode(p.mode, [PrintName(p.name)] + p.words, l.gaps);
    assert l.gaps[1..][1..] == l.gaps[2..];
    JoinedName(p.name, p.words, l.gaps[1..]);
  }

  lemma CollapsedIsHead(p: Parameter, l: Layout)
    requires Printable(p) && |l.gaps| == |AllWords(p)| && AllSeparate(TypeGaps(p, l))
    requires p.mode != "" ==> Separates(l.gaps[0])
    ensures Collapsed(p, l) == HeadOf(p, l)
  {
    JoinedLength(p.words, TypeGaps(p, l));
    HeadText(p.mode, Tidied(p.name), Shown(NameGap(p, l)), TypeName(p));
    if p.mode == "" {
      CollapsedModeless(p, l);
    } else {
      CollapsedMode(p, l);
    }
  }

  lemma HeadIsGood(p: Parameter, l: Layout)
    requires Printable(p) && |l.gaps| == |AllWords(p)| && NameEnds(p, l)
    ensures GoodHead(p.mode, Tidied(p.name), Shown(NameGap(p, l)), TypeName(p))
  {
    TidiedIsGood(p.name);
    JoinIsTidy(p.words);
  }

  // -- Its default ----------------------------------------------------------

  lemma FirstOfSqueezed(v: string, g: Gap)
    requires GoodGap(g) && (v == "" || !IsWord(v[0]))
    ensures var r := RStrip(Squeeze(v + GapSpace(g))); r == "" || !IsWord(r[0])
  {
    var s := v + GapSpace(g);
    GapSpaceIsSpace(g);
    if s != "" {
      assert s[0] == if v == "" then GapSpace(g)[0] else v[0];
      SqueezedFirst(s);
      RStripFirst(Squeeze(s));
    }
  }

  lemma {:induction false} SqueezedFirst(s: string)
    requires s != ""
    ensures Squeeze(s) != "" && Squeeze(s)[0] == if IsSpace(s[0]) then ' ' else s[0]
  {
    if IsSpace(s[0]) {
      SqueezeStartsWithSpace(s);
    }
  }

  /** What the parser sees behind the separator. */
  function Behind(d: Default, l: Layout): string
    requires d.Default?
  {
    RStrip(Squeeze(StrippedValue(d, l)))
  }

  lemma RStripFirst(s: string)
    requires s != "" && !IsWord(s[0])
    ensures var r := RStrip(s); r == "" || !IsWord(r[0])
  {}

  lemma SpaceFirst(s: string)
    requires s != "" && IsSpace(s[0])
    ensures var r := RStrip(Squeeze(s)); r == "" || !IsWord(r[0])
  {
    SqueezedFirst(s);
    RStripFirst(Squeeze(s));
  }

  lemma BehindStandsFree(d: Default, l: Layout)
    requires d.Default? && GoodGap(l.after) && GoodGap(l.end)
    requires Separates(l.after) || Strip(d.value, Normal) == "" || !IsWord(Strip(d.value, Normal)[0])
    ensures Behind(d, l) == "" || !IsWord(Behind(d, l)[0])
  {
    var v := Strip(d.value, Normal);
    GapSpaceIsSpace(l.after);
    if Separates(l.after) {
      assert GapSpace(l.after)[0] in GapSpace(l.after);
      SpaceFirst(GapSpace(l.after) + (v + GapSpace(l.end)));
    } else {
      assert GapSpace(l.after) + (v + GapSpace(l.end)) == v + GapSpace(l.end);
      FirstOfSqueezed(v, l.end);
    }
  }

  lemma FullText(h: string, b: string, w: string, x: string)
    ensures h + (b + (w + x)) == (h + (b + w)) + x
  {}

  lemma SeparatorStays(h: string, b: string, w: string, x: string)
    requires Solid(w)
    ensures RStrip(h + (b + Squeeze(w + x))) == h + (b + (w + RStrip(Squeeze(x))))
  {
    var s := Squeeze(x);
    assert w[|w| - 1] in w;
    SqueezeSolid(w);
    SqueezeAppend(w, x);
    FullText(h, b, w, s);
    FullText(h, b, w, RStrip(s));
    RStripAppend(h + (b + w), s);
  }

  lemma WordsThenDefault(text: string, lead: Gap, words: seq<string>, gaps: seq<Gap>, w: string, x: string, j: string, b: string)
    requires Collapsible(text, lead, words, gaps, w + x) && Solid(w) && j == Joined(words, gaps) && b == Shown(gaps[|gaps| - 1])
    ensures Collapse(Strip(text, Normal)) == j + (b + (w + RStrip(Squeeze(x))))
  {
    CollapsibleCollapses(text, lead, words, gaps, w + x, j, b);
    SeparatorStays(j, b, w, x);
  }

  lemma DefaultIsCollapsible(p: Parameter, l: Layout)
    requires Printable(p) && Laid(p, l) && p.default.Default?
    ensures Collapsible(Write(p, l), l.lead, AllWords(p), l.gaps, p.default.separator + StrippedValue(p.default, l))
  {
    TextIsCollapsible(p, l);
  }

  /** The character in front of the separator, unless it is a space. */
  function InFront(gaps: seq<Gap>, h: string): Option<char>
    requires gaps != []
  {
    if Shown(gaps[|gaps| - 1]) == "" then Last(h, None) else None
  }

  lemma DefaultIsDropped(
    text: string, lead: Gap, words: seq<string>, gaps: seq<Gap>, w: string, x: string, h: string, prev: Option<char>, r: string
  )
    requires Collapsible(text, lead, words, gaps, w + x) && Separator(w) && h == Joined(words, gaps) && Declares(h)
    requires prev == InFront(gaps, h) && r == RStrip(Squeeze(x)) && StandsFree(prev, w, r)
    ensures Declaration(text) == h && Collapse(Strip(text, Normal)) != ""
  {
    var b := Shown(gaps[|gaps| - 1]);
    SeparatorChars(w);
    WordsThenDefault(text, lead, words, gaps, w, x, h, b);
    var param, n := h + (b + (w + r)), |h| + |b|;
    DefaultIsCutOff(h, b, w, r, param, n);
    DeclarationInFront(text, param, h, n);
  }

  lemma LastOfHead(p: Parameter, l: Layout)
    requires Printable(p) && |l.gaps| == |AllWords(p)|
    ensures var h, t := HeadOf(p, l), TypeName(p); t != "" && Last(h, None) == Some(t[|t| - 1])
  {
    JoinIsTidy(p.words);
    var b, t := Shown(NameGap(p, l)), TypeName(p);
    assert (b + t)[|b + t| - 1] == t[|t| - 1];
    LastOfThree(Front(p.mode), PrintName(Tidied(p.name)), b + t);
  }

  lemma DefaultStandsFree(p: Parameter, l: Layout, h: string, t: string)
    requires p.default.Default? && |l.gaps| == |AllWords(p)| && GoodGap(l.after) && GoodGap(l.end) && DefaultStands(p, l)
    requires t == TypeName(p) && t != "" && Last(h, None) == Some(t[|t| - 1])
    ensures StandsFree(InFront(l.gaps, h), p.default.separator, Behind(p.default, l))
  {
    if p.default.separator != "=" {
      BehindStandsFree(p.default, l);
      StandsFreeBehind(l.gaps, h, t, p.default.separator, Behind(p.default, l));
    }
  }

  lemma StandsFreeBehind(gaps: seq<Gap>, h: string, t: string, w: string, r: string)
    requires gaps != [] && t != "" && Last(h, None) == Some(t[|t| - 1]) && (r == "" || !IsWord(r[0]))
    requires Separates(gaps[|gaps| - 1]) || !IsWord(t[|t| - 1])
    ensures StandsFree(InFront(gaps, h), w, r)
  {}

  // -- Its meaning ----------------------------------------------------------

  lemma PlainDeclares(h: string)
    requires Plain(h) && h != "" && !IsSpace(h[|h| - 1])
    ensures Declares(h)
  {}

  lemma DeclarationWithout(p: Parameter, l: Layout, h: string)
    requires Printable(p) && Laid(p, l) && p.default.NoDefault? && h == Collapsed(p, l) && Declares(h)
    ensures Declaration(Write(p, l)) == h && Collapse(Strip(Write(p, l), Normal)) != ""
  {
    WordsCollapse(p, l, h);
    DeclarationIsWhole(Write(p, l), h);
  }

  lemma DeclarationIsHead(p: Parameter, l: Layout, h: string)
    requires Printable(p) && Laid(p, l) && DefaultStands(p, l) && h == Collapsed(p, l) == HeadOf(p, l) && Declares(h)
    ensures Declaration(Write(p, l)) == h && Collapse(Strip(Write(p, l), Normal)) != ""
  {
    if p.default.NoDefault? {
      DeclarationWithout(p, l, h);
    } else {
      LastOfHead(p, l);
      DefaultStandsFree(p, l, h, TypeName(p));
      DefaultIsCollapsible(p, l);
      DefaultIsDropped(Write(p, l), l.lead, AllWords(p), l.gaps, p.default.separator, StrippedValue(p.default, l),
                       h, InFront(l.gaps, h), Behind(p.default, l));
    }
  }

  /** In any layout whose gaps separate where they have to, a parameter is one piece of the list and parses to its meaning. */
  lemma LaidParameterParses(p: Parameter, l: Layout)
    requires Printable(p) && Laid(p, l) && Spaced(p, l)
    ensures Piece(Write(p, l)) && ParseParam(Write(p, l)) == Meaning(p.mode, TypeName(p))
  {
    var h := HeadOf(p, l);
    TextIsPiece(p, l);
    CollapsedIsHead(p, l);
    HeadIsGood(p, l);
    HeadIsPlain(p.mode, Tidied(p.name), Shown(NameGap(p, l)), TypeName(p));
    PlainDeclares(h);
    DeclarationIsHead(p, l, h);
    HeadParses(p.mode, Tidied(p.name), Shown(NameGap(p, l)), TypeName(p));
  }
}
