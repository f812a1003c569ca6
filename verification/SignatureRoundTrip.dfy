/** Parameter lists parse back: in any layout, and as a printer writes them. */
module SignatureRoundTrip {
  import opened Text
  import opened Whitespace
  import opened SqlLexer
  import opened SqlScanners
  import opened SqlLaws
  import opened SqlSignature
  import opened SignaturePieces
  import opened SqlComments
  import opened SignatureHead
  import opened SignatureLayout
  import opened SignatureParameter
  import opened SignatureGlue

  // -- The list -------------------------------------------------------------

  lemma PieceThenList(first: string, rest: string, parts: seq<string>)
    requires Piece(first) && Neutral(rest) && Split(rest, START) == parts
    ensures Neutral(first + ("," + rest)) && Split(first + ("," + rest), START) == [first] + parts
  {
    CommaStarts(rest);
    CutIsBorder(first, "," + rest, START);
    EndAtBorder(first, "," + rest, START);
    SplitAtBorder(first, "," + rest, START);
    assert first + "" == first;
    assert Onto(first, [""] + parts) == [first] + parts;
  }

  lemma JoinFirst(parts: seq<string>)
    requires |parts| > 1
    ensures Join(",", parts) == parts[0] + ("," + Join(",", parts[1..])) && parts == [parts[0]] + parts[1..]
  {
    Assoc(parts[0], ",", Join(",", parts[1..]));
  }

  /** A list of pieces joined with commas is neutral and splits back into the pieces. */
  lemma {:induction false} SplitJoined(parts: seq<string>)
    requires parts != [] && forall x :: x in parts ==> Piece(x)
    ensures Neutral(Join(",", parts)) && Split(Join(",", parts), START) == parts
  {
    assert parts[0] in parts;
    if |parts| > 1 {
      SplitJoined(parts[1..]);
      JoinFirst(parts);
      PieceThenList(parts[0], Join(",", parts[1..]), parts[1..]);
    } else {
      assert parts == [parts[0]];
    }
  }

  lemma CommaStarts(rest: string)
    requires Neutral(rest)
    ensures Neutral("," + rest) && Split("," + rest, START) == [""] + Split(rest, START)
  {
    var s := "," + rest;
    assert Rest(s, START) == rest && Next(s, START) == START;
  }

  /** A parameter and how it is laid out. */
  datatype Written = Written(parameter: Parameter, layout: Layout)

  predicate WellWritten(w: Written) {
    Printable(w.parameter) && Laid(w.parameter, w.layout) && Spaced(w.parameter, w.layout)
  }

  function TextOf(w: Written): string {
    if |w.layout.gaps| == |AllWords(w.parameter)| then Write(w.parameter, w.layout) else ""
  }

  function Texts(ws: seq<Written>): (r: seq<string>)
    ensures |r| == |ws| && forall i :: 0 <= i < |ws| ==> r[i] == TextOf(ws[i])
  {
    seq(|ws|, i requires 0 <= i < |ws| => TextOf(ws[i]))
  }

  function MeaningOf(w: Written): Parsed {
    Meaning(w.parameter.mode, TypeName(w.parameter))
  }

  /** Types of the parameters a caller passes, in order. */
  function TypesOf(ws: seq<Written>): seq<string> {
    if ws == [] then [] else
      (if MeaningOf(ws[0]).Typed? then [NormalizeTypeName(MeaningOf(ws[0]).spelling)] else []) + TypesOf(ws[1..])
  }

  lemma {:induction false} CollectMeanings(results: seq<Parsed>, ws: seq<Written>)
    requires |results| == |ws| && forall i :: 0 <= i < |ws| ==> results[i] == MeaningOf(ws[i])
    ensures Collect(results) == Ok(TypesOf(ws))
  {
    if results != [] {
      CollectMeanings(results[1..], ws[1..]);
      assert results[0] == MeaningOf(ws[0]);
      assert [] + TypesOf(ws[1..]) == TypesOf(ws[1..]);
    }
  }

  lemma WrittenParses(w: Written)
    requires WellWritten(w)
    ensures Piece(TextOf(w)) && ParseParam(TextOf(w)) == MeaningOf(w)
  {
    LaidParameterParses(w.parameter, w.layout);
  }

  /** Every text is one piece of the list, and parses to its meaning. */
  predicate AllParse(raws: seq<string>, ws: seq<Written>) {
    |raws| == |ws| && forall i :: 0 <= i < |ws| ==> Piece(raws[i]) && ParseParam(raws[i]) == MeaningOf(ws[i])
  }

  lemma TextsParse(ws: seq<Written>)
    requires forall w :: w in ws ==> WellWritten(w)
    ensures AllParse(Texts(ws), ws)
  {
    forall i | 0 <= i < |ws| ensures Piece(Texts(ws)[i]) && ParseParam(Texts(ws)[i]) == MeaningOf(ws[i]) {
      assert ws[i] in ws;
      WrittenParses(ws[i]);
    }
  }

  lemma ListParses(raws: seq<string>, ws: seq<Written>)
    requires AllParse(raws, ws)
    ensures Neutral(Join(",", raws))
    ensures Identity(Join(",", raws)) == Ok(Join(", ", TypesOf(ws)))
  {
    if ws == [] {
      EmptyListParses();
      assert raws == [] && TypesOf(ws) == [];
    } else {
      SplitJoined(raws);
      CollectMeanings(Map(ParseParam, raws), ws);
    }
  }

  lemma {:induction false} CollectError(results: seq<Parsed>, k: nat, e: Error)
    requires k < |results| && results[k] == Bad(e) && forall i :: 0 <= i < k ==> !results[i].Bad?
    ensures Collect(results) == Err(e)
  {
    if k == 0 {
    } else {
      CollectError(results[1..], k - 1, e);
    }
  }

  lemma EmptyListParses()
    ensures Neutral("") && Identity("") == Ok("")
  {
    var parts := Split("", START);
    assert parts == [""] && Strip("", Normal) == "" && Collapse("") == "";
    var results := Map(ParseParam, parts);
    assert results[0] == Skip;
    assert results[1..] == [] && Collect(results) == Collect(results[1..]);
  }

  lemma ListInText(pre: string, args: string, post: string)
    ensures var text, close := pre + "(" + args + ")" + post, |pre| + 1 + |args|;
      close < |text| && text[close] == ')' && text[|pre| + 1..close] == args
  {}

  lemma ListAt(text: string, open: nat, close: nat)
    requires open < close < |text| && text[close] == ')' && Neutral(text[open + 1..close])
    ensures IdentityAt(text, open) == Identity(text[open + 1..close])
  {
    ArgumentListIsNeutral(text, open, close);
  }

  /** A neutral argument list is found in any text. */
  lemma ListIsFound(pre: string, args: string, post: string)
    requires Neutral(args)
    ensures IdentityAt(pre + "(" + args + ")" + post, |pre|) == Identity(args)
  {
    var text, close := pre + "(" + args + ")" + post, |pre| + 1 + |args|;
    ListInText(pre, args, post);
    ListAt(text, |pre|, close);
  }

  /** The whole way: a parameter list in any such layout, in any text, parses to the normalised types of its inputs. */
  lemma SignatureRoundTrips(pre: string, ws: seq<Written>, post: string)
    requires forall w :: w in ws ==> WellWritten(w)
    ensures IdentityAt(pre + "(" + Join(",", Texts(ws)) + ")" + post, |pre|) == Ok(Join(", ", TypesOf(ws)))
  {
    TextsParse(ws);
    ListParses(Texts(ws), ws);
    ListIsFound(pre, Join(",", Texts(ws)), post);
  }

  // -- Refused lists --------------------------------------------------------

  lemma PiecesBefore(raws: seq<string>, ws: seq<Written>, raw: string)
    requires AllParse(raws, ws) && Piece(raw)
    ensures forall x :: x in raws + [raw] ==> Piece(x)
  {
    forall x | x in raws + [raw] ensures Piece(x) {
      assert x in raws || x == raw;
    }
  }

  lemma FirstError(raws: seq<string>, ws: seq<Written>, raw: string)
    requires AllParse(raws, ws) && ParseParam(raw) == Bad(NoType)
    ensures Collect(Map(ParseParam, raws + [raw])) == Err(NoType)
  {
    var results := Map(ParseParam, raws + [raw]);
    forall i | 0 <= i < |ws| ensures !results[i].Bad? {
      assert (raws + [raw])[i] == raws[i];
    }
    CollectError(results, |ws|, NoType);
  }

  lemma RefusedBehind(raws: seq<string>, ws: seq<Written>, raw: string)
    requires AllParse(raws, ws) && Piece(raw) && ParseParam(raw) == Bad(NoType)
    ensures Identity(Join(",", raws + [raw])) == Err(NoType)
  {
    PiecesBefore(raws, ws, raw);
    SplitJoined(raws + [raw]);
    FirstError(raws, ws, raw);
  }

  /** A parameter list with a one-word parameter behind good ones is refused. */
  lemma UnnamedParameterIsRefused(ws: seq<Written>, w: string)
    requires (forall x :: x in ws ==> WellWritten(x)) && OneWord(w)
    ensures Identity(Join(",", Texts(ws) + [w])) == Err(NoType)
  {
    TextsParse(ws);
    OneWordIsRefused(w);
    RefusedBehind(Texts(ws), ws, w);
  }

  // -- As a printer writes them ---------------------------------------------

  const SPACE: Gap := [Space(' ')]

  /** One space between any two words, the type as one of them. */
  function Plainly(p: Parameter): Written {
    var last := if p.default.NoDefault? then [] else SPACE;
    Written(p, Layout([], (if p.mode == "" then [] else [SPACE]) + [SPACE, last], SPACE, []))
  }

  function Print(p: Parameter): string {
    Join(" ", AllWords(p) + (if p.default.NoDefault? then [] else [p.default.separator, p.default.value]))
  }

  lemma SpaceFacts()
    ensures GoodGap(SPACE) && Separates(SPACE) && GapText(SPACE) == " "
  {
    assert SPACE[0] in SPACE && SPACE[1..] == [];
    assert " " + "" == " ";
  }

  /** A space everywhere, or nothing behind the last word. */
  predicate Regular(gaps: seq<Gap>, q: string) {
    forall i :: 0 <= i < |gaps| ==> gaps[i] == SPACE || (i == |gaps| - 1 && gaps[i] == [] && q == "")
  }

  lemma {:induction false} PlainFits(words: seq<string>, gaps: seq<Gap>, q: string)
    requires |words| == |gaps| && Regular(gaps, q) && forall w :: w in words ==> Plain(w)
    ensures Fits(words, gaps, q, START, START)
  {
    if words != [] {
      var w, g := words[0], gaps[0];
      assert w in words && forall x :: x in words[1..] ==> x in words;
      assert Plain(w) && Reads(w, START, START, w);
      RegularRest(gaps, q);
      PlainFits(words[1..], gaps[1..], q);
      assert Apart(w, g, if |words| == 1 then q else words[1]);
    }
  }

  lemma RegularRest(gaps: seq<Gap>, q: string)
    requires gaps != [] && Regular(gaps, q)
    ensures Regular(gaps[1..], q) && (gaps[0] == SPACE || (|gaps| == 1 && gaps[0] == [] && q == ""))
  {
    forall i | 0 <= i < |gaps[1..]|
      ensures gaps[1..][i] == SPACE || (i == |gaps[1..]| - 1 && gaps[1..][i] == [] && q == "")
    {
      assert gaps[1..][i] == gaps[i + 1];
    }
  }

  lemma JoinNext(sep: string, words: seq<string>, more: seq<string>)
    requires words != [] && more != []
    ensures Join(sep, words + more) == words[0] + (sep + Join(sep, words[1..] + more))
  {
    assert (words + more)[1..] == words[1..] + more;
    Assoc(words[0], sep, Join(sep, words[1..] + more));
  }

  lemma {:induction false} SpacedFlow(words: seq<string>, gaps: seq<Gap>, more: seq<string>)
    requires |words| == |gaps| && (forall i :: 0 <= i < |gaps| ==> gaps[i] == SPACE) && more != []
    ensures Flow(words, gaps) + Join(" ", more) == Join(" ", words + more)
  {
    if words == [] {
      assert [] + more == more && "" + Join(" ", more) == Join(" ", more);
    } else {
      SpaceFacts();
      SpacedFlow(words[1..], gaps[1..], more);
      FlowNext(words, gaps, Join(" ", more), Join(" ", words[1..] + more));
      JoinNext(" ", words, more);
    }
  }

  lemma {:induction false} FlowToLast(words: seq<string>, gaps: seq<Gap>)
    requires words != [] && |words| == |gaps| && Regular(gaps, "") && gaps[|gaps| - 1] == []
    ensures Flow(words, gaps) == Join(" ", words)
  {
    if |words| == 1 {
      assert words[1..] == [] && "" + "" == "" && words[0] + "" == words[0];
    } else {
      SpaceFacts();
      RegularRest(gaps, "");
      FlowToLast(words[1..], gaps[1..]);
      Assoc(words[0], " ", Join(" ", words[1..]));
    }
  }

  predicate OnePart(p: Parameter) {
    Printable(p) && |p.words| == 1
  }

  lemma PlainlyText(p: Parameter)
    requires OnePart(p)
    ensures var l := Plainly(p).layout; |l.gaps| == |AllWords(p)| && Write(p, l) == Print(p)
  {
    var l, words := Plainly(p).layout, AllWords(p);
    var flow := Flow(words, l.gaps);
    assert "" + (flow + Tail(p.default, l)) == flow + Tail(p.default, l);
    if p.default.NoDefault? {
      FlowToLast(words, l.gaps);
      assert flow + "" == flow && words + [] == words;
    } else {
      TailText(p.default, l);
      SpacedFlow(words, l.gaps, [p.default.separator, p.default.value]);
    }
  }

  lemma TailText(d: Default, l: Layout)
    requires d.Default? && l.after == SPACE && l.end == []
    ensures Tail(d, l) == Join(" ", [d.separator, d.value])
  {
    SpaceFacts();
    assert [d.separator, d.value][1..] == [d.value] && d.value + "" == d.value;
    Assoc(d.separator, " ", d.value);
  }

  lemma AllArePlain(p: Parameter)
    requires OnePart(p)
    ensures forall w :: w in AllWords(p) ==> Plain(w)
  {
    NameIsPlain(p.name);
    assert p.words == [p.words[0]] && TypeName(p) == p.words[0];
    if p.mode != "" {
      ModeIsPlain(p.mode);
    }
  }

  lemma PlainlyIsSpaced(p: Parameter)
    requires OnePart(p)
    ensures Spaced(p, Plainly(p).layout)
  {
    SpaceFacts();
  }

  lemma PlainlyIsLaid(p: Parameter)
    requires OnePart(p)
    ensures Laid(p, Plainly(p).layout)
  {
    var l := Plainly(p).layout;
    SpaceFacts();
    AllArePlain(p);
    assert forall g :: g in l.gaps ==> g == SPACE || g == [];
    PlainFits(AllWords(p), l.gaps, Tail(p.default, l));
  }

  lemma PlainlyIsWell(p: Parameter)
    requires OnePart(p)
    ensures WellWritten(Plainly(p)) && TextOf(Plainly(p)) == Print(p)
  {
    PlainlyIsLaid(p);
    PlainlyIsSpaced(p);
    PlainlyText(p);
  }

  function PlainlyAll(ps: seq<Parameter>): (ws: seq<Written>)
    ensures |ws| == |ps| && forall i :: 0 <= i < |ps| ==> ws[i] == Plainly(ps[i])
  {
    seq(|ps|, i requires 0 <= i < |ps| => Plainly(ps[i]))
  }

  function PrintAll(ps: seq<Parameter>): (r: seq<string>)
    ensures |r| == |ps| && forall i :: 0 <= i < |ps| ==> r[i] == Print(ps[i])
  {
    seq(|ps|, i requires 0 <= i < |ps| => Print(ps[i]))
  }

  /** In particular as a printer writes it, with single spaces. */
  lemma PrintedListRoundTrips(pre: string, ps: seq<Parameter>, post: string)
    requires forall p :: p in ps ==> OnePart(p)
    ensures IdentityAt(pre + "(" + Join(",", PrintAll(ps)) + ")" + post, |pre|) == Ok(Join(", ", TypesOf(PlainlyAll(ps))))
  {
    var ws := PlainlyAll(ps);
    forall i | 0 <= i < |ps| ensures WellWritten(ws[i]) && TextOf(ws[i]) == Print(ps[i]) {
      assert ps[i] in ps;
      PlainlyIsWell(ps[i]);
    }
    assert Texts(ws) == PrintAll(ps);
    SignatureRoundTrips(pre, ws, post);
  }

  // -- Parameters without a name --------------------------------------------

  lemma JoinPair(w: string, t: string)
    ensures Join(" ", [w, t]) == w + (" " + t)
  {
    assert [w, t][1..] == [t] && Join(" ", [t]) == t;
    Assoc(w, " ", t);
  }

  lemma UnnamedText(w: string, t: string)
    ensures Print(Parameter("", Bare(w), [t], NoDefault)) == w + (" " + t)
  {
    var p := Parameter("", Bare(w), [t], NoDefault);
    assert AllWords(p) + [] == [w, t];
    JoinPair(w, t);
  }

  lemma FirstWordIsDropped(w: string, t: string)
    requires OneWord(w) && Plain(t) && Tidy(t)
    ensures ParseParam(w + (" " + t)) == Typed(t)
  {
    var p := Parameter("", Bare(w), [t], NoDefault);
    assert TypeName(p) == t;
    PlainlyIsWell(p);
    WrittenParses(Plainly(p));
    UnnamedText(w, t);
    Modeless(t);
  }

  /** The first word is taken for a name, whatever it is: a one-word type is refused, a longer one loses its first word. */
  lemma UnnamedParameter(w: string, t: string)
    requires OneWord(w) && Plain(t) && Tidy(t)
    ensures ParseParam(w) == Bad(NoType)
    ensures ParseParam(w + (" " + t)) == Typed(t)
  {
    OneWordIsRefused(w);
    FirstWordIsDropped(w, t);
  }

  // -- One comment, two names -----------------------------------------------

  const COMMENT: Gap := [Comment("*/")]

  /** Only an empty comment between a name and its type. */
  function Commented(n: Name, t: string): Written {
    Written(Parameter("", n, [t], NoDefault), Layout([], [COMMENT, []], [], []))
  }

  lemma CommentFacts()
    ensures GoodGap(COMMENT) && !Separates(COMMENT) && GapText(COMMENT) == "/**/"
  {
    var x := "*/";
    assert x[2..] == "" && Closes("", 0) && Closes(x, 1);
    assert COMMENT[1..] == [] && "/*" + x == "/**/" && "/**/" + "" == "/**/";
  }

  lemma CommentedText(n: Name, t: string)
    ensures var w := Commented(n, t);
      |w.layout.gaps| == |AllWords(w.parameter)| && Write(w.parameter, w.layout) == PrintName(n) + ("/**/" + t)
  {
    var w, name := Commented(n, t), PrintName(n);
    var words, gaps := [name, t], [COMMENT, []];
    CommentFacts();
    assert AllWords(w.parameter) == words && words[1..] == [t] && gaps[1..] == [[]] && [t][1..] == [];
    assert Flow([t], [[]]) == t + ("" + "") == t;
    assert Flow(words, gaps) == name + ("/**/" + t);
    var flow := Flow(words, gaps);
    assert "" + (flow + "") == flow;
  }

  lemma CommentedIsLaid(n: Name, t: string)
    requires GoodName(n) && Plain(t) && Tidy(t)
    ensures var w := Commented(n, t); Printable(w.parameter) && Laid(w.parameter, w.layout)
  {
    var w := Commented(n, t);
    CommentFacts();
    NameIsPlain(n);
    assert AllWords(w.parameter) == [PrintName(n), t];
    CommentedFits(PrintName(n), t);
  }

  lemma CommentedFits(name: string, t: string)
    requires Plain(name) && Plain(t)
    ensures Fits([name, t], [COMMENT, []], "", START, START)
  {
    var words, gaps := [name, t], [COMMENT, []];
    assert words[1..] == [t] && gaps[1..] == [[]] && [t][1..] == [];
    assert Fits([t], [[]], "", START, START);
  }

  /** `a/**/int` is refused; with the name in quotes it is read right. */
  lemma CommentBehindName(w: string, t: string)
    requires OneWord(w) && Plain(t) && Tidy(t) && Solid(t) && OneWord(w + t) && t[0] != '"'
    ensures ParseParam(w + ("/**/" + t)) == Bad(NoType)
    ensures ParseParam(Quote(w) + ("/**/" + t)) == Typed(t)
  {
    CommentBehindBare(w, t);
    CommentBehindQuoted(w, t);
  }

  lemma CommentBehindBare(w: string, t: string)
    requires OneWord(w) && Plain(t) && Tidy(t) && Solid(t) && OneWord(w + t)
    ensures ParseParam(w + ("/**/" + t)) == Bad(NoType)
  {
    var bare := Commented(Bare(w), t);
    CommentFacts();
    CommentedIsLaid(Bare(w), t);
    CommentedText(Bare(w), t);
    GluedNameIsRefused(bare.parameter, bare.layout);
  }

  lemma CommentBehindQuoted(w: string, t: string)
    requires Plain(t) && Tidy(t) && t[0] != '"'
    ensures ParseParam(Quote(w) + ("/**/" + t)) == Typed(t)
  {
    var quoted := Commented(Quoted(w), t);
    CommentedIsLaid(Quoted(w), t);
    CommentedText(Quoted(w), t);
    assert TypeName(quoted.parameter) == t;
    LaidParameterParses(quoted.parameter, quoted.layout);
    Modeless(t);
  }
}
