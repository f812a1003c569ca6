/** Choosing a dollar-quote tag for a query and the statement assembled around it. */
module DollarQuote {
  import opened Text

  // -- Tags -----------------------------------------------------------------

  function Digit(d: nat): char
    requires d < 10
  {
    (d + '0' as int) as char
  }

  function Decimal(n: nat): (s: string)
    ensures s != "" && forall c :: c in s ==> IsDigit(c)
  {
    if n < 10 then [Digit(n)] else Decimal(n / 10) + [Digit(n % 10)]
  }

  lemma {:induction false} DecimalIsInjective(a: nat, b: nat)
    requires Decimal(a) == Decimal(b)
    ensures a == b
    decreases a
  {
    var s, t := Decimal(a), Decimal(b);
    assert s[|s| - 1] == Digit(a % 10) && t[|t| - 1] == Digit(b % 10);
    if a >= 10 && b >= 10 {
      assert s[..|s| - 1] == Decimal(a / 10) && t[..|t| - 1] == Decimal(b / 10);
      DecimalIsInjective(a / 10, b / 10);
    }
  }

  const STEM := "$pgtrickle_q"

  /** The candidates in the order they are tried. */
  function Tag(n: nat): string {
    STEM + (if n == 0 then "" else "_" + Decimal(n)) + "$"
  }

  lemma TagShape(n: nat)
    ensures var t := Tag(n);
      && |t| >= 13 && t[..12] == STEM && t[0] == '$' && t[|t| - 1] == '$'
      && t[12..|t| - 1] == (if n == 0 then "" else "_" + Decimal(n))
      && forall i :: 1 <= i < |t| - 1 ==> t[i] != '$' && t[i] != '\n'
  {
    var mid := if n == 0 then "" else "_" + Decimal(n);
    var t := Tag(n);
    assert t == STEM + mid + "$";
    forall i | 1 <= i < |t| - 1 ensures t[i] != '$' && t[i] != '\n' {
      InsideTag(n, mid, i);
    }
  }

  lemma InsideTag(n: nat, mid: string, i: nat)
    requires mid == (if n == 0 then "" else "_" + Decimal(n)) && 1 <= i < 12 + |mid|
    ensures var c := (STEM + mid + "$")[i]; c != '$' && c != '\n'
  {
    if i < 12 {
      assert (STEM + mid + "$")[i] == STEM[i];
    } else {
      assert (STEM + mid + "$")[i] == mid[i - 12];
      if i > 12 {
        assert mid[i - 12] == Decimal(n)[i - 13] && Decimal(n)[i - 13] in Decimal(n);
      }
    }
  }

  /** Two different candidates never start at the same place. */
  lemma TagIsInjective(a: nat, b: nat)
    requires Tag(a) == Tag(b)
    ensures a == b
  {
    TagShape(a);
    TagShape(b);
    var t := Tag(a);
    var x := t[12..|t| - 1];
    if a != 0 && b != 0 {
      assert x[1..] == Decimal(a) && x[1..] == Decimal(b);
      DecimalIsInjective(a, b);
    }
  }

  lemma TagsDoNotShareAPlace(query: string, i: nat, a: nat, b: nat)
    requires At(query, i, Tag(a)) && At(query, i, Tag(b))
    ensures a == b
  {
    var s, t := Tag(a), Tag(b);
    TagShape(a);
    TagShape(b);
    SamePlace(query, i, s, t);
    assert |s| == |t|;
    TagIsInjective(a, b);
  }

  lemma SamePlace(query: string, i: nat, s: string, t: string)
    requires At(query, i, s) && At(query, i, t)
    ensures forall k :: 0 <= k < |s| && k < |t| ==> s[k] == t[k]
  {
    forall k | 0 <= k < |s| && k < |t| ensures s[k] == t[k] {
      assert s[k] == query[i..i + |s|][k] == query[i + k];
      assert t[k] == query[i..i + |t|][k] == query[i + k];
    }
  }

  // -- The search -----------------------------------------------------------

  lemma RangeSize(s: set<int>, n: nat)
    requires forall i :: i in s ==> 0 <= i < n
    ensures |s| <= n
  {
    if n > 0 {
      RangeSize(s - {n - 1}, n - 1);
      if n - 1 in s {
        assert s == (s - {n - 1}) + {n - 1};
      } else {
        assert s == s - {n - 1};
      }
    } else {
      assert forall i :: i !in s;
    }
  }

  /** Distinct places for the first n candidates, all of which occur. */
  lemma {:induction false} Places(query: string, n: nat) returns (places: set<int>)
    requires forall k: nat :: k < n ==> Contains(query, Tag(k))
    ensures |places| == n
    ensures forall i :: i in places ==> 0 <= i < |query| && exists k: nat :: k < n && At(query, i, Tag(k))
  {
    places := {};
    if n > 0 {
      places := Places(query, n - 1);
      assert Contains(query, Tag(n - 1));
      var i :| 0 <= i <= |query| && At(query, i, Tag(n - 1));
      TagShape(n - 1);
      if i in places {
        var k: nat :| k < n - 1 && At(query, i, Tag(k));
        TagsDoNotShareAPlace(query, i, k, n - 1);
      }
      places := places + {i};
    }
  }

  lemma SearchIsShort(query: string, n: nat)
    requires forall k: nat :: k < n ==> Contains(query, Tag(k))
    ensures n <= |query|
  {
    var places := Places(query, n);
    RangeSize(places, |query|);
  }

  /** `_dollar_tag`: the first candidate that the query does not contain, after at most |query| tries. */
  method DollarTag(query: string) returns (tag: string, n: nat)
    ensures tag == Tag(n) && !Contains(query, tag)
    ensures n <= |query| && forall k: nat :: k < n ==> Contains(query, Tag(k))
  {
    n := 0;
    tag := "$pgtrickle_q$";
    assert tag == Tag(0);
    while Contains(query, tag)
      invariant tag == Tag(n) && n <= |query|
      invariant forall k: nat :: k < n ==> Contains(query, Tag(k))
      decreases |query| - n
    {
      n := n + 1;
      SearchIsShort(query, n);
      tag := "$pgtrickle_q_" + Decimal(n) + "$";
      assert tag == Tag(n);
    }
  }

  // -- The statement --------------------------------------------------------

  const NO_DATA := "    initialize => false"
  const END := ");"

  /** The lines behind the query. */
  function Tail(tag: string, noData: bool): seq<string> {
    if noData then [tag + ",", NO_DATA, END] else [tag, END]
  }

  function NameLine(name: string): string {
    "    name => '" + Doubled(name, '\'') + "',"
  }

  /** The text `on_create` returns. */
  function Statement(fn: string, name: string, tag: string, query: string, noData: bool): string {
    Join("\n", ["SELECT pgtrickle." + fn + "(", NameLine(name), "    query => " + tag, query] + Tail(tag, noData))
  }

  function Head(fn: string, name: string): string {
    ("SELECT pgtrickle." + fn + "(") + "\n" + NameLine(name) + "\n" + "    query => "
  }

  function Foot(noData: bool): string {
    if noData then "," + "\n" + NO_DATA + "\n" + END else "\n" + END
  }

  lemma JoinLines(line: string, rest: seq<string>)
    requires rest != []
    ensures Join("\n", [line] + rest) == line + "\n" + Join("\n", rest)
  {
    assert ([line] + rest)[1..] == rest;
  }

  lemma Grouped(a: string, b: string, p: string, tag: string, query: string, nl: string, t: string)
    ensures a + nl + (b + nl + (p + tag + nl + (query + nl + t))) ==
            (a + nl + b + nl + p) + tag + (nl + query + nl) + t
  {}

  lemma FourFirst(a: string, b: string, c: string, d: string, tail: seq<string>)
    ensures [a, b, c, d] + tail == [a] + ([b] + ([c] + ([d] + tail)))
  {}

  lemma JoinFour(a: string, b: string, c: string, d: string, tail: seq<string>)
    requires tail != []
    ensures Join("\n", [a] + ([b] + ([c] + ([d] + tail)))) ==
            a + "\n" + (b + "\n" + (c + "\n" + (d + "\n" + Join("\n", tail))))
  {
    JoinLines(d, tail);
    JoinLines(c, [d] + tail);
    JoinLines(b, [c] + ([d] + tail));
    JoinLines(a, [b] + ([c] + ([d] + tail)));
  }

  lemma FourLines(a: string, b: string, p: string, tag: string, query: string, tail: seq<string>)
    requires tail != []
    ensures Join("\n", [a, b, p + tag, query] + tail) ==
            (a + "\n" + b + "\n" + p) + tag + ("\n" + query + "\n") + Join("\n", tail)
  {
    FourFirst(a, b, p + tag, query, tail);
    JoinFour(a, b, p + tag, query, tail);
    Grouped(a, b, p, tag, query, "\n", Join("\n", tail));
  }

  lemma TailText(tag: string, x: string, y: string)
    ensures Join("\n", [tag + ",", x, y]) == tag + ("," + "\n" + x + "\n" + y)
    ensures Join("\n", [tag, y]) == tag + ("\n" + y)
  {
    JoinLines(x, [y]);
    JoinLines(tag + ",", [x] + [y]);
    JoinLines(tag, [y]);
    assert [tag + ",", x, y] == [tag + ","] + ([x] + [y]) && [tag, y] == [tag] + [y];
  }

  lemma StatementShape(fn: string, name: string, tag: string, query: string, noData: bool)
    ensures Statement(fn, name, tag, query, noData) ==
            Head(fn, name) + tag + ("\n" + query + "\n") + (tag + Foot(noData))
  {
    FourLines("SELECT pgtrickle." + fn + "(", NameLine(name), "    query => ", tag, query, Tail(tag, noData));
    TailText(tag, NO_DATA, END);
  }

  // -- Reading it back ------------------------------------------------------

  /** A string literal behind its opening quote: its value and the text behind it. */
  function ReadLiteral(s: string): Option<(string, string)>
    decreases |s|
  {
    if s == "" then None
    else if At(s, 0, "''") then Fronted('\'', ReadLiteral(s[2..]))
    else if s[0] == '\'' then Some(("", s[1..]))
    else Fronted(s[0], ReadLiteral(s[1..]))
  }

  function Fronted(c: char, r: Option<(string, string)>): Option<(string, string)> {
    if r.None? then None else Some(([c] + r.value.0, r.value.1))
  }

  lemma LiteralEnds(rest: string)
    requires rest == "" || rest[0] != '\''
    ensures ReadLiteral("'" + rest) == Some(("", rest))
  {
    var s := "'" + rest;
    assert s[1..] == rest && !At(s, 0, "''");
  }

  lemma QuoteReads(more: string)
    ensures ReadLiteral("''" + more) == Fronted('\'', ReadLiteral(more))
  {
    var s := "''" + more;
    assert s[2..] == more && s[0..2] == "''";
  }

  lemma CharReads(c: char, more: string)
    requires c != '\''
    ensures ReadLiteral([c] + more) == Fronted(c, ReadLiteral(more))
  {
    var s := [c] + more;
    assert s[1..] == more && s[0] == c;
    assert |s| >= 2 ==> s[0..2][0] == c;
  }

  lemma {:induction false} LiteralReadsBack(value: string, rest: string)
    requires rest == "" || rest[0] != '\''
    ensures ReadLiteral(Doubled(value, '\'') + ("'" + rest)) == Some((value, rest))
  {
    if value == "" {
      assert Doubled(value, '\'') + ("'" + rest) == "'" + rest;
      LiteralEnds(rest);
    } else {
      var more := Doubled(value[1..], '\'');
      LiteralReadsBack(value[1..], rest);
      assert value == [value[0]] + value[1..];
      if value[0] == '\'' {
        QuoteReads(more + ("'" + rest));
        Assoc("''", more, "'" + rest);
      } else {
        CharReads(value[0], more + ("'" + rest));
        Assoc([value[0]], more, "'" + rest);
      }
    }
  }

  /** A number read from its digits. */
  function Value(s: string): nat
    requires forall c :: c in s ==> IsDigit(c)
  {
    if s == "" then 0 else
      var last, init := s[|s| - 1], s[..|s| - 1];
      assert last in s && IsDigit(last) && forall c :: c in init ==> c in s;
      Value(init) * 10 + (last as int - '0' as int)
  }

  lemma {:induction false} DecimalReadsBack(n: nat)
    ensures Value(Decimal(n)) == n && (n > 0 ==> Decimal(n)[0] != '0')
  {
    var s := Decimal(n);
    if n < 10 {
      assert s[..0] == "";
    } else {
      DecimalReadsBack(n / 10);
      assert s[..|s| - 1] == Decimal(n / 10);
    }
  }

  /** The tags in the order they are tried. */
  lemma TagsAre(n: nat)
    ensures Tag(0) == "$pgtrickle_q$"
    ensures n > 0 ==> Tag(n) == "$pgtrickle_q" + ("_" + Decimal(n)) + "$"
  {}

  /** Up to the quote in front of the name. */
  function NameStart(fn: string): string {
    "SELECT pgtrickle." + fn + "(" + "\n" + "    name => '"
  }

  /** Behind the closing quote of the name. */
  function NameEnd(tag: string, query: string, noData: bool): string {
    ("," + "\n" + "    query => ") + tag + ("\n" + query + "\n") + tag
    + (if noData then "," + "\n" + "    initialize => false" + "\n" + ");" else "\n" + ");")
  }

  lemma HeadParts(fn: string, name: string)
    ensures Head(fn, name) == (NameStart(fn) + Doubled(name, '\'')) + ("'" + ("," + "\n" + "    query => "))
  {
    assert "'," == "'" + ",";
  }

  lemma LinesJoined(a: string, b: string, tag: string, body: string, foot: string)
    ensures (a + ("'" + b)) + tag + body + (tag + foot) == a + ("'" + (b + tag + body + tag + foot))
  {}

  /** The statement line by line: the function, the name as a literal, the quoted query, and whether it is filled. */
  lemma StatementLines(fn: string, name: string, tag: string, query: string, noData: bool)
    ensures Statement(fn, name, tag, query, noData) ==
      (NameStart(fn) + Doubled(name, '\'')) + ("'" + NameEnd(tag, query, noData))
  {
    StatementShape(fn, name, tag, query, noData);
    HeadParts(fn, name);
    LinesJoined(NameStart(fn) + Doubled(name, '\''), "," + "\n" + "    query => ", tag, "\n" + query + "\n", Foot(noData));
  }

  /** Read back, the literal of the statement is the name, and what follows it is fixed. */
  lemma NameReadsBack(fn: string, name: string, tag: string, query: string, noData: bool)
    ensures var text := Statement(fn, name, tag, query, noData);
      && NameStart(fn) <= text && ReadLiteral(text[|NameStart(fn)|..]) == Some((name, NameEnd(tag, query, noData)))
  {
    var start, q, end := NameStart(fn), Doubled(name, '\''), NameEnd(tag, query, noData);
    StatementLines(fn, name, tag, query, noData);
    Assoc(start, q, "'" + end);
    LiteralReadsBack(name, end);
    BehindStart(start, q + ("'" + end));
  }

  lemma BehindStart(start: string, rest: string)
    ensures start <= start + rest && (start + rest)[|start|..] == rest
  {}

  /** Where a dollar-quoted string that opened with tag ends: the next occurrence of the tag. */
  function NextTag(text: string, from: nat, tag: string): Option<nat>
    decreases |text| - from
  {
    if from >= |text| then None
    else if At(text, from, tag) then Some(from)
    else NextTag(text, from + 1, tag)
  }

  lemma {:induction false} NextTagIsFirst(text: string, from: nat, tag: string, k: nat)
    requires from <= k < |text| && At(text, k, tag)
    requires forall i :: from <= i < k ==> !At(text, i, tag)
    ensures NextTag(text, from, tag) == Some(k)
    decreases k - from
  {
    if from < k { NextTagIsFirst(text, from + 1, tag, k); }
  }

  /** A tag that closes a quote around the query. */
  predicate Fits(tag: string, query: string) {
    tag != "" && '\n' !in tag && !Contains(query, tag)
  }

  /** The body read between the opening tag and the next one is the query between its two newlines. */
  lemma BodyIsTheQuery(text: string, start: nat, tag: string, query: string)
    requires Fits(tag, query) && At(text, start + |query| + 2, tag)
    requires start + |query| + 2 < |text| && text[start..start + |query| + 2] == "\n" + query + "\n"
    ensures NextTag(text, start, tag) == Some(start + |query| + 2)
  {
    forall i | start <= i < start + |query| + 2 ensures !At(text, i, tag) {
      if At(text, i, tag) {
        TagOutsideTheQuery(text, start, query, i, tag);
      }
    }
    NextTagIsFirst(text, start, tag, start + |query| + 2);
  }

  lemma InsideMatch(text: string, i: nat, tag: string, p: nat)
    requires At(text, i, tag) && i <= p < i + |tag|
    ensures text[p] == tag[p - i]
  {
    assert text[i..i + |tag|][p - i] == text[p];
  }

  /** A match of newline-free text does not reach over a newline. */
  lemma MatchAvoidsNewline(text: string, i: nat, tag: string, p: nat)
    requires At(text, i, tag) && '\n' !in tag && p < |text| && text[p] == '\n'
    ensures p < i || i + |tag| <= p
  {
    if i <= p < i + |tag| {
      InsideMatch(text, i, tag, p);
      assert false;
    }
  }

  /** A match between the two newlines lies in the query. */
  lemma MatchInBody(text: string, start: nat, query: string, i: nat, tag: string)
    requires start + |query| + 2 <= |text| && text[start..start + |query| + 2] == "\n" + query + "\n"
    requires start < i && i + |tag| <= start + 1 + |query| && At(text, i, tag)
    ensures At(query, i - start - 1, tag)
  {
    var body, k := "\n" + query + "\n", i - start - 1;
    assert body[1..1 + |query|] == query;
    SliceOfSlice(body, 1, 1 + |query|, k, k + |tag|);
    SliceOfSlice(text, start, start + |body|, k + 1, k + 1 + |tag|);
  }

  lemma NewlinesAround(text: string, start: nat, query: string)
    requires start + |query| + 2 <= |text| && text[start..start + |query| + 2] == "\n" + query + "\n"
    ensures text[start] == '\n' && text[start + 1 + |query|] == '\n'
  {
    var slice := text[start..start + |query| + 2];
    assert slice[0] == text[start] && slice[|query| + 1] == text[start + 1 + |query|];
  }

  lemma TagOutsideTheQuery(text: string, start: nat, query: string, i: nat, tag: string)
    requires start + |query| + 2 <= |text| && text[start..start + |query| + 2] == "\n" + query + "\n"
    requires start <= i < start + |query| + 2 && At(text, i, tag) && tag != "" && '\n' !in tag
    ensures Contains(query, tag)
  {
    NewlinesAround(text, start, query);
    MatchAvoidsNewline(text, i, tag, start);
    MatchAvoidsNewline(text, i, tag, start + 1 + |query|);
    MatchInBody(text, start, query, i, tag);
  }

  /** What a reader takes from behind an opening tag: the body up to the next tag, and the text behind that. */
  ghost predicate Quotes(text: string, start: nat, tag: string, body: string, behind: string) {
    var end := NextTag(text, start, tag);
    && end.Some? && start <= end.value && end.value + |tag| <= |text|
    && text[start..end.value] == body && text[end.value + |tag|..] == behind
  }

  lemma Pieces(text: string, head: string, tag: string, body: string, foot: string)
    requires text == head + tag + body + (tag + foot)
    ensures |text| == |head| + |tag| + |body| + |tag| + |foot|
    ensures At(text, |head|, tag) && text[|head| + |tag|..|head| + |tag| + |body|] == body
    ensures At(text, |head| + |tag| + |body|, tag) && text[|head| + |tag| + |body| + |tag|..] == foot
  {
    var start := |head| + |tag|;
    assert text[|head|..start] == tag;
    assert text[start..start + |body|] == body;
    assert text[start + |body|..start + |body| + |tag|] == tag;
  }

  lemma QuoteReadsBack(text: string, head: string, tag: string, query: string, foot: string)
    requires Fits(tag, query) && text == head + tag + ("\n" + query + "\n") + (tag + foot)
    ensures At(text, |head|, tag) && Quotes(text, |head| + |tag|, tag, "\n" + query + "\n", foot)
  {
    Pieces(text, head, tag, "\n" + query + "\n", foot);
    BodyIsTheQuery(text, |head| + |tag|, tag, query);
  }

  lemma TagFits(n: nat, query: string)
    requires !Contains(query, Tag(n))
    ensures Fits(Tag(n), query)
  {
    TagShape(n);
  }

  /** What stands behind the closing tag. */
  function Behind(noData: bool): string {
    if noData then "," + "\n" + "    initialize => false" + "\n" + ");" else "\n" + ");"
  }

  /** The opening tag stands behind the head, its quote holds exactly the query, and the rest says whether to fill the table. */
  ghost predicate Converted(text: string, head: string, tag: string, query: string, noData: bool) {
    At(text, |head|, tag) && Quotes(text, |head| + |tag|, tag, "\n" + query + "\n", Behind(noData))
  }

  lemma StatementQuotes(fn: string, name: string, tag: string, query: string, noData: bool)
    requires Fits(tag, query)
    ensures Converted(Statement(fn, name, tag, query, noData), Head(fn, name), tag, query, noData)
  {
    StatementShape(fn, name, tag, query, noData);
    QuoteReadsBack(Statement(fn, name, tag, query, noData), Head(fn, name), tag, query, Foot(noData));
  }

  /** The query holds all tags in front of this one. */
  ghost predicate FirstTag(tag: string, query: string) {
    exists n: nat :: tag == Tag(n) && forall k: nat :: k < n ==> Contains(query, Tag(k))
  }

  /** The tag of the query, and that it closes a quote around it. */
  method FittingTag(query: string) returns (tag: string)
    ensures Fits(tag, query) && FirstTag(tag, query)
  {
    var n;
    tag, n := DollarTag(query);
    TagFits(n, query);
  }

  /** A converted view: the statement quotes exactly its query. */
  method ConvertCreate(fn: string, name: string, query: string, noData: bool) returns (text: string, tag: string)
    ensures Fits(tag, query) && FirstTag(tag, query) && text == Statement(fn, name, tag, query, noData)
    ensures Converted(text, Head(fn, name), tag, query, noData)
  {
    tag := FittingTag(query);
    text := Statement(fn, name, tag, query, noData);
    StatementQuotes(fn, name, tag, query, noData);
  }
}
