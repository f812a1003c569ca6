/** Comments and whitespace between words, as the scanners see them. */
module SqlComments {
  import opened Text
  import opened Whitespace
  import opened SqlLexer
  import opened SqlScanners
  import opened SqlLaws

  // -- Block comments -------------------------------------------------------

  /** Inside n block comments, the text closes all of them, the last one with its last two characters. */
  predicate Closes(s: string, n: nat)
    decreases |s|
  {
    if n == 0 then s == ""
    else if Pair(s, '/', '*') then Closes(s[2..], n + 1)
    else if Pair(s, '*', '/') then Closes(s[2..], n - 1)
    else s != "" && Closes(s[1..], n)
  }

  function Inside(n: nat): Mode {
    if n == 0 then Normal else Block(n)
  }

  /** A comment does not end with a single character. */
  lemma NotLast(s: string, n: nat)
    requires Closes(s, n) && n > 0
    ensures |s| >= 2
  {
    if |s| == 1 {
      assert s[1..] == "";
    }
  }

  lemma CommentStep(s: string, n: nat, q: string)
    requires |s| >= 2 && n > 0
    ensures Step(s + q, Block(n)) == Step(s, Block(n))
  {
    assert (s + q)[0] == s[0] && (s + q)[1] == s[1];
  }

  /** Where a comment closes, the next text starts afresh. */
  lemma {:induction false} CommentIsBorder(s: string, n: nat, d: nat, q: string)
    requires Closes(s, n)
    ensures Border(s, q, State(Inside(n), d))
    decreases |s|
  {
    if n > 0 {
      NotLast(s, n);
      CommentStep(s, n, q);
      if Pair(s, '/', '*') {
        CommentIsBorder(s[2..], n + 1, d, q);
      } else if Pair(s, '*', '/') {
        CommentIsBorder(s[2..], n - 1, d, q);
      } else {
        CommentIsBorder(s[1..], n, d, q);
      }
    }
  }

  lemma {:induction false} CommentIsSilent(s: string, n: nat, d: nat)
    requires Closes(s, n)
    ensures Reads(s, State(Inside(n), d), State(Normal, d), "")
    decreases |s|
  {
    var st, e := State(Inside(n), d), State(Normal, d);
    if n == 0 {
      ReadsNothing(e);
    } else if Pair(s, '/', '*') {
      CommentIsSilent(s[2..], n + 1, d);
      ReadsToken(s, st, e, "", "");
    } else if Pair(s, '*', '/') {
      CommentIsSilent(s[2..], n - 1, d);
      ReadsToken(s, st, e, "", "");
    } else {
      CommentIsSilent(s[1..], n, d);
      ReadsToken(s, st, e, "", "");
    }
  }

  /** A closed block comment leaves nothing, behind any text that ends outside quotes and comments. */
  lemma BlockCommentVanishes(p: string, x: string, q: string)
    requires End(p, START).mode == Normal && Closes(x, 1)
    ensures Strip(p + (("/*" + x) + q), Normal) == Strip(p, Normal) + Strip(q, Normal)
  {
    var c, st := "/*" + x, End(p, START);
    SlashIsBorder(p, c + q, START);
    StripAtBorder(p, c + q, START);
    BlockCommentReads(x, st.depth);
    BlockCommentIsBorder(x, st.depth, q);
    StripAtBorder(c, q, st);
    assert "" + Strip(q, Normal) == Strip(q, Normal);
  }

  lemma BlockCommentReads(x: string, d: nat)
    requires Closes(x, 1)
    ensures Reads("/*" + x, State(Normal, d), State(Normal, d), "")
  {
    var s, st := "/*" + x, State(Normal, d);
    assert s[2..] == x;
    CommentIsSilent(x, 1, d);
    ReadsToken(s, st, st, "", "");
  }

  lemma BlockCommentIsBorder(x: string, d: nat, q: string)
    requires Closes(x, 1)
    ensures Border("/*" + x, q, State(Normal, d))
  {
    var s := "/*" + x;
    assert s[2..] == x && (s + q)[0] == '/' && (s + q)[1] == '*';
    CommentIsBorder(x, 1, d, q);
  }

  // -- Their grammar --------------------------------------------------------

  /** What stands inside a block comment: characters and further block comments. */
  datatype Body = Done | Char(c: char, rest: Body) | Inner(inner: Body, rest: Body)

  predicate Mark(a: char, b: char) {
    (a == '/' && b == '*') || (a == '*' && b == '/')
  }

  /** The character that follows: of the body, or of its end. */
  function First(b: Body): char {
    match b case Done => '*' case Char(c, _) => c case Inner(_, _) => '/'
  }

  /** Characters may be any, slashes and stars too, as long as no two of them are a mark. */
  predicate PlainBody(b: Body) {
    match b
    case Done => true
    case Char(c, rest) => !Mark(c, First(rest)) && PlainBody(rest)
    case Inner(inner, rest) => PlainBody(inner) && PlainBody(rest)
  }

  function BodyText(b: Body): string {
    match b
    case Done => ""
    case Char(c, rest) => [c] + BodyText(rest)
    case Inner(inner, rest) => "/*" + (BodyText(inner) + ("*/" + BodyText(rest)))
  }

  lemma CharText(c: char, r: string, t: string)
    ensures ([c] + r) + t == [c] + (r + t)
  {}

  lemma InnerText(i: string, r: string, t: string)
    ensures ("/*" + (i + ("*/" + r))) + t == "/*" + (i + ("*/" + (r + t)))
  {}

  lemma ClosesOpen(t: string, n: nat)
    requires n >= 1
    ensures Closes("/*" + t, n) <==> Closes(t, n + 1)
  {
    assert ("/*" + t)[2..] == t;
  }

  lemma ClosesClose(t: string, n: nat)
    requires n >= 1
    ensures Closes("*/" + t, n) <==> Closes(t, n - 1)
  {
    assert ("*/" + t)[2..] == t;
  }

  lemma ClosesChar(c: char, t: string, n: nat)
    requires n >= 1 && t != "" && !Mark(c, t[0])
    ensures Closes([c] + t, n) <==> Closes(t, n)
  {
    assert ([c] + t)[1..] == t;
  }

  /** A body does not change the nesting. */
  lemma {:induction false} BodyIsSkipped(b: Body, n: nat, t: string)
    requires PlainBody(b) && n >= 1 && t != "" && t[0] == '*'
    ensures Closes(BodyText(b) + t, n) <==> Closes(t, n)
    ensures BodyText(b) + t != "" && (BodyText(b) + t)[0] == First(b)
    decreases b
  {
    match b
    case Done =>
      assert BodyText(b) + t == t;
    case Char(c, rest) =>
      BodyIsSkipped(rest, n, t);
      CharText(c, BodyText(rest), t);
      ClosesChar(c, BodyText(rest) + t, n);
    case Inner(inner, rest) =>
      var tail := BodyText(rest) + t;
      BodyIsSkipped(rest, n, t);
      BodyIsSkipped(inner, n + 1, "*/" + tail);
      ClosesClose(tail, n + 1);
      ClosesOpen(BodyText(inner) + ("*/" + tail), n);
      InnerText(BodyText(inner), BodyText(rest), t);
  }

  /** Every closed text begins with a body and its end. */
  lemma {:induction false} BodyOf(s: string, n: nat) returns (b: Body, rest: string)
    requires Closes(s, n) && n >= 1
    ensures PlainBody(b) && s == BodyText(b) + ("*/" + rest) && Closes(rest, n - 1) && s[0] == First(b)
    decreases |s|
  {
    if Pair(s, '*', '/') {
      b, rest := Done, s[2..];
    } else if Pair(s, '/', '*') {
      var inner, more := BodyOf(s[2..], n + 1);
      NotLast(more, n);
      var outer;
      outer, rest := BodyOf(more, n);
      b := Inner(inner, outer);
      InnerText(BodyText(inner), BodyText(outer), "*/" + rest);
      assert s == "/*" + s[2..];
    } else {
      NotLast(s, n);
      var more;
      more, rest := BodyOf(s[1..], n);
      b := Char(s[0], more);
      assert s == [s[0]] + s[1..];
      CharText(s[0], BodyText(more), "*/" + rest);
    }
  }

  lemma BodyCloses(b: Body)
    requires PlainBody(b)
    ensures Closes(BodyText(b) + "*/", 1)
  {
    BodyIsSkipped(b, 1, "*/");
    ClosesClose("", 1);
    assert "*/" + "" == "*/";
  }

  /** The closed comments are exactly those of the grammar. */
  lemma ClosedIffBody(x: string)
    ensures Closes(x, 1) <==> exists b :: PlainBody(b) && x == BodyText(b) + "*/"
  {
    if Closes(x, 1) {
      var b, rest := BodyOf(x, 1);
      assert "*/" + rest == "*/";
    }
    forall b | PlainBody(b) && x == BodyText(b) + "*/" ensures Closes(x, 1) {
      BodyCloses(b);
    }
  }

  // -- Line comments --------------------------------------------------------

  lemma {:induction false} LineReads(text: string, d: nat)
    requires '\n' !in text
    ensures Reads(text + "\n", State(Line, d), State(Normal, d), "\n")
  {
    var s, st, e := text + "\n", State(Line, d), State(Normal, d);
    if text == "" {
      assert s[1..] == "";
      ReadsNothing(e);
      ReadsToken(s, st, e, "\n", "");
    } else {
      assert s[1..] == text[1..] + "\n" && s[0] == text[0] && text[0] in text;
      LineReads(text[1..], d);
      ReadsToken(s, st, e, "", "\n");
    }
  }

  lemma {:induction false} LineIsBorder(text: string, d: nat, q: string)
    requires '\n' !in text
    ensures Border(text + "\n", q, State(Line, d))
  {
    var s, st := text + "\n", State(Line, d);
    assert (s + q)[0] == s[0];
    if text == "" {
      assert s[1..] == "";
    } else {
      assert s[1..] == text[1..] + "\n" && s[0] == text[0] && text[0] in text;
      LineIsBorder(text[1..], d, q);
    }
  }

  lemma LineCommentReads(text: string, d: nat)
    requires '\n' !in text
    ensures Reads("--" + (text + "\n"), State(Normal, d), State(Normal, d), "\n")
  {
    var s, st := "--" + (text + "\n"), State(Normal, d);
    assert s[2..] == text + "\n";
    LineReads(text, d);
    ReadsToken(s, st, st, "", "\n");
  }

  lemma LineCommentIsBorder(text: string, d: nat, q: string)
    requires '\n' !in text
    ensures Border("--" + (text + "\n"), q, State(Normal, d))
  {
    var s := "--" + (text + "\n");
    assert s[2..] == text + "\n" && (s + q)[0] == '-' && (s + q)[1] == '-';
    LineIsBorder(text, d, q);
  }

  /** A line comment leaves its newline. */
  lemma LineCommentLeavesNewline(p: string, text: string, q: string)
    requires '\n' !in text && End(p, START).mode == Normal && (p == "" || p[|p| - 1] != '-')
    ensures Strip(p + (("--" + (text + "\n")) + q), Normal) == Strip(p, Normal) + ("\n" + Strip(q, Normal))
  {
    var c, st := "--" + (text + "\n"), End(p, START);
    CutIsBorder(p, c + q, START);
    StripAtBorder(p, c + q, START);
    LineCommentReads(text, st.depth);
    LineCommentIsBorder(text, st.depth, q);
    StripAtBorder(c, q, st);
  }

  // -- Gaps between words ---------------------------------------------------

  datatype Item = Space(c: char) | Comment(body: string) | Remark(text: string)
  type Gap = seq<Item>

  predicate GoodItem(i: Item) {
    match i
    case Space(c) => IsSpace(c)
    case Comment(body) => Closes(body, 1)
    case Remark(text) => '\n' !in text
  }

  predicate GoodGap(g: Gap) {
    forall i :: i in g ==> GoodItem(i)
  }

  function ItemText(i: Item): string {
    match i case Space(c) => [c] case Comment(body) => "/*" + body case Remark(text) => "--" + (text + "\n")
  }

  /** The whitespace that stripping leaves of it. */
  function ItemSpace(i: Item): string {
    match i case Space(c) => [c] case Comment(_) => "" case Remark(_) => "\n"
  }

  function GapText(g: Gap): string {
    if g == [] then "" else ItemText(g[0]) + GapText(g[1..])
  }

  function GapSpace(g: Gap): string {
    if g == [] then "" else ItemSpace(g[0]) + GapSpace(g[1..])
  }

  /** Some whitespace or a line comment in it. */
  predicate Separates(g: Gap) {
    exists i :: i in g && !i.Comment?
  }

  lemma ItemReads(i: Item, d: nat)
    requires GoodItem(i)
    ensures Reads(ItemText(i), State(Normal, d), State(Normal, d), ItemSpace(i))
  {
    match i
    case Space(c) =>
      var st := State(Normal, d);
      assert [c][1..] == "";
      ReadsNothing(st);
      ReadsToken([c], st, st, [c], "");
    case Comment(body) => BlockCommentReads(body, d);
    case Remark(text) => LineCommentReads(text, d);
  }

  lemma ItemIsBorder(i: Item, d: nat, q: string)
    requires GoodItem(i)
    ensures Border(ItemText(i), q, State(Normal, d))
  {
    match i
    case Space(c) => CutIsBorder([c], q, State(Normal, d));
    case Comment(body) => BlockCommentIsBorder(body, d, q);
    case Remark(text) => LineCommentIsBorder(text, d, q);
  }

  /** A gap in front of a text: stripping leaves its whitespace, and the text reads as it does alone. */
  lemma {:induction false} GapThenReads(g: Gap, d: nat, q: string, e: State, o: string)
    requires GoodGap(g) && Reads(q, State(Normal, d), e, o)
    ensures Reads(GapText(g) + q, State(Normal, d), e, GapSpace(g) + o)
  {
    if g == [] {
      assert "" + q == q && "" + o == o;
    } else {
      var st, rest := State(Normal, d), GapText(g[1..]) + q;
      assert g[0] in g && forall i :: i in g[1..] ==> i in g;
      GapThenReads(g[1..], d, q, e, o);
      ItemReads(g[0], d);
      ItemIsBorder(g[0], d, rest);
      ReadsConcat(ItemText(g[0]), rest, st, st, e, ItemSpace(g[0]), GapSpace(g[1..]) + o);
      Assoc(ItemText(g[0]), GapText(g[1..]), q);
      Assoc(ItemSpace(g[0]), GapSpace(g[1..]), o);
    }
  }

  lemma {:induction false} GapSpaceIsSpace(g: Gap)
    requires GoodGap(g)
    ensures (forall c :: c in GapSpace(g) ==> IsSpace(c)) && (GapSpace(g) != "" <==> Separates(g))
  {
    if g != [] {
      assert g[0] in g && forall i :: i in g[1..] ==> i in g;
      assert forall i :: i in g ==> i == g[0] || i in g[1..];
      GapSpaceIsSpace(g[1..]);
    }
  }

  /** Whether a word and what follows it stay apart: a dash would swallow a line comment's. */
  predicate Apart(w: string, g: Gap, q: string) {
    if g == [] then Cut(w, q) else w == "" || w[|w| - 1] != '-' || !g[0].Remark?
  }

  lemma GapStarts(g: Gap, q: string)
    requires g != [] && GoodGap(g)
    ensures var x := GapText(g) + q; x != "" && (if g[0].Comment? then x[0] == '/' else x[0] == '-' || IsSpace(x[0]))
    ensures (GapText(g) + q)[0] == '-' ==> g[0].Remark?
  {
    assert g[0] in g;
  }

  /** A closed word and a gap: no token straddles the border between the two. */
  lemma WordIsBorder(w: string, g: Gap, q: string, st: State)
    requires End(w, st).mode == Normal && GoodGap(g) && Apart(w, g, q)
    ensures Border(w, GapText(g) + q, st)
  {
    var x := GapText(g) + q;
    if g == [] {
      assert x == q;
      CutIsBorder(w, q, st);
    } else {
      GapStarts(g, q);
      if g[0].Comment? {
        SlashIsBorder(w, x, st);
      } else {
        CutIsBorder(w, x, st);
      }
    }
  }

  /** What is left of a gap when whitespace runs are squeezed. */
  function Shown(g: Gap): string {
    if Separates(g) then " " else ""
  }

  lemma GapSqueezed(g: Gap, x: string)
    requires GoodGap(g) && (x == "" || !IsSpace(x[0]))
    ensures Squeeze(GapSpace(g) + x) == Shown(g) + Squeeze(x)
  {
    GapSpaceIsSpace(g);
    SqueezeAppend(GapSpace(g), x);
    SqueezeSpaces(GapSpace(g));
  }
}
