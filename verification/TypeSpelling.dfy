/** What `normalize_type_name` makes of every spelling of a type name with array brackets. */
module TypeSpelling {
  import opened Text
  import opened Whitespace
  import opened SqlLexer
  import opened SqlSignature

  /** One pair of brackets; in collapsed text there is at most one space before and one inside. */
  datatype Dim = Dim(before: bool, inside: bool)

  function Bracket(d: Dim): string {
    (if d.before then " [" else "[") + (if d.inside then " ]" else "]")
  }

  function Spell(ds: seq<Dim>): string {
    if ds == [] then "" else Bracket(ds[0]) + Spell(ds[1..])
  }

  function Brackets(n: nat): string {
    if n == 0 then "" else Brackets(n - 1) + "[]"
  }

  /** A type name without brackets, in single-space spelling. */
  predicate Core(c: string) {
    Tidy(c) && '[' !in c && ']' !in c
  }

  // -- Spaces before brackets -----------------------------------------------

  lemma {:induction false} DropAppend(a: string, b: string, c: char)
    requires a == "" || a[|a| - 1] != ' '
    ensures DropSpaceBefore(a + b, c) == DropSpaceBefore(a, c) + DropSpaceBefore(b, c)
    decreases |a|
  {
    if a == "" {
      assert a + b == b;
    } else {
      var n := if Pair(a, ' ', c) then 2 else 1;
      assert Pair(a + b, ' ', c) == Pair(a, ' ', c);
      assert (a + b)[n..] == a[n..] + b;
      DropAppend(a[n..], b, c);
    }
  }

  lemma {:induction false} DropNothing(s: string, c: char)
    requires c !in s
    ensures DropSpaceBefore(s, c) == s
  {
    if s != "" {
      assert !Pair(s, ' ', c);
      DropNothing(s[1..], c);
    }
  }

  lemma DropBracket(d: Dim)
    ensures var b := DropSpaceBefore(Bracket(d), '[');
      b != "" && b[|b| - 1] == ']' && DropSpaceBefore(b, ']') == "[]"
  {
    var close := if d.inside then " ]" else "]";
    assert DropSpaceBefore(close, '[') == close by {
      DropNothing(close, '[');
    }
    var open := if d.before then " [" else "[";
    assert open[|open|..] == "" && DropSpaceBefore(open, '[') == "[";
    DropAppend(open, close, '[');
    DropNothing("[", ']');
    assert close[|close|..] == "" && DropSpaceBefore(close, ']') == "]";
    DropAppend("[", close, ']');
  }

  lemma {:induction false} BracketsAtFront(n: nat)
    ensures "[]" + Brackets(n) == Brackets(n + 1)
  {
    if n == 0 {
      assert "[]" + "" == "" + "[]";
    } else {
      BracketsAtFront(n - 1);
      Assoc("[]", Brackets(n - 1), "[]");
    }
  }

  lemma {:induction false} DropSpelled(ds: seq<Dim>)
    ensures DropSpaceBefore(DropSpaceBefore(Spell(ds), '['), ']') == Brackets(|ds|)
  {
    if ds != [] {
      var b, rest := Bracket(ds[0]), Spell(ds[1..]);
      DropSpelled(ds[1..]);
      DropBracket(ds[0]);
      DropAppend(b, rest, '[');
      DropAppend(DropSpaceBefore(b, '['), DropSpaceBefore(rest, '['), ']');
      BracketsAtFront(|ds| - 1);
    }
  }

  // -- Whitespace -----------------------------------------------------------

  lemma SqueezeBracket(d: Dim)
    ensures Squeeze(Bracket(d)) == Bracket(d)
  {
    var b := Bracket(d);
    assert Squeeze("]") == "]" + Squeeze("") && Squeeze(" ]") == " " + Squeeze("]");
    var close := if d.inside then " ]" else "]";
    assert Squeeze("[") == "[" + Squeeze("");
    SqueezeAppend("[", close);
    assert d.before ==> b[1..] == "[" + close;
  }

  lemma {:induction false} SqueezeSpelled(ds: seq<Dim>)
    ensures Squeeze(Spell(ds)) == Spell(ds) && RStrip(Spell(ds)) == Spell(ds)
  {
    if ds != [] {
      var b, rest := Bracket(ds[0]), Spell(ds[1..]);
      SqueezeSpelled(ds[1..]);
      SqueezeBracket(ds[0]);
      SqueezeAppend(b, rest);
      RStripAppend(b, rest);
    }
  }

  lemma CollapseSpelled(c: string, ds: seq<Dim>)
    requires Core(c)
    ensures Collapse(c + Spell(ds)) == c + Spell(ds)
  {
    SqueezeSpelled(ds);
    SqueezeAppend(c, Spell(ds));
    RStripAppend(c, Spell(ds));
    assert (c + Spell(ds))[0] == c[0];
  }

  // -- Lower case and trailing brackets -------------------------------------

  lemma LowerAppend(a: string, b: string)
    ensures Lower(a + b) == Lower(a) + Lower(b)
  {}

  lemma {:induction false} LowerBrackets(n: nat)
    ensures Lower(Brackets(n)) == Brackets(n)
  {
    if n > 0 {
      LowerBrackets(n - 1);
      LowerAppend(Brackets(n - 1), "[]");
      assert Lower("[]") == "[]";
    }
  }

  lemma LowerOfCore(c: string)
    requires Core(c)
    ensures Base(Lower(c))
  {
    assert c[|c| - 1] in c;
  }

  lemma TrimBracketed(x: string, n: nat)
    requires x != "" && !IsSpace(x[0]) && !IsSpace(x[|x| - 1])
    ensures Trim(x + Brackets(n)) == x + Brackets(n)
  {
    var s := x + Brackets(n);
    assert s[0] == x[0];
    if n == 0 {
      assert s == x;
    } else {
      assert s[|s| - 1] == ']';
    }
  }

  lemma TakeOne(y: string)
    requires Trim(y) == y
    ensures TakeArrays(y + "[]") == (TakeArrays(y).0, TakeArrays(y).1 + "[]")
  {
    var s := y + "[]";
    assert s[|s| - 2..] == "[]" && s[..|s| - 2] == y;
  }

  lemma TakeNone(x: string)
    requires Base(x)
    ensures TakeArrays(x) == (x, "")
  {
    assert |x| >= 2 ==> x[|x| - 2..][1] == x[|x| - 1];
  }

  lemma TakeMore(x: string, y: string, n: nat)
    requires Trim(y) == y && TakeArrays(y) == (x, Brackets(n))
    ensures TakeArrays(y + "[]") == (x, Brackets(n + 1))
  {
    TakeOne(y);
  }

  lemma {:induction false} TakeBrackets(x: string, n: nat)
    requires Base(x)
    ensures TakeArrays(x + Brackets(n)) == (x, Brackets(n))
  {
    if n == 0 {
      assert x + "" == x;
      TakeNone(x);
    } else {
      var m := n - 1;
      TakeBrackets(x, m);
      TrimBracketed(x, m);
      TakeMore(x, x + Brackets(m), m);
      Assoc(x, Brackets(m), "[]");
    }
  }

  // -- The normal form ------------------------------------------------------

  /** After whitespace and case, only the lower-case name and its brackets are left. */
  lemma LoweredSpelling(c: string, ds: seq<Dim>)
    requires Core(c)
    ensures Lowered(c + Spell(ds)) == Lower(c) + Brackets(|ds|)
  {
    CollapseSpelled(c, ds);
    DropAppend(c, Spell(ds), '[');
    DropNothing(c, '[');
    DropAppend(c, DropSpaceBefore(Spell(ds), '['), ']');
    DropNothing(c, ']');
    DropSpelled(ds);
    LowerAppend(c, Brackets(|ds|));
    LowerBrackets(|ds|);
  }

  /** Trimmed at both ends and without a bracket at the end. */
  predicate Base(l: string) {
    l != "" && !IsSpace(l[0]) && !IsSpace(l[|l| - 1]) && l[|l| - 1] != ']'
  }

  lemma AliasedBrackets(l: string, n: nat)
    requires Base(l)
    ensures Aliased(l + Brackets(n)) == TypeAlias(l) + Brackets(n)
  {
    TakeBrackets(l, n);
  }

  lemma NotVariadic(l: string, n: nat)
    requires !(VARIADIC <= l)
    ensures !(VARIADIC <= l + Brackets(n))
  {
    if n > 0 && |l| < |VARIADIC| {
      BracketsAtFront(n - 1);
      assert (l + Brackets(n))[|l|] == '[' != VARIADIC[|l|];
    }
  }

  lemma NormalFormOfName(l: string, n: nat)
    requires Base(l) && !(VARIADIC <= l)
    ensures NormalForm(l + Brackets(n)) == TypeAlias(l) + Brackets(n)
  {
    NotVariadic(l, n);
    AliasedBrackets(l, n);
  }

  lemma NormalFormOfVariadic(l: string, n: nat)
    requires Base(l)
    ensures NormalForm(VARIADIC + (l + Brackets(n))) == VARIADIC + (TypeAlias(l) + Brackets(n))
  {
    var s := VARIADIC + (l + Brackets(n));
    assert s[|VARIADIC|..] == l + Brackets(n);
    TrimBracketed(l, n);
    AliasedBrackets(l, n);
  }

  /** Case, whitespace and alias spelling are all that normalisation changes. */
  lemma NormalizedName(t: string, c: string, ds: seq<Dim>)
    requires Core(c) && !(VARIADIC <= Lower(c)) && Collapse(t) == c + Spell(ds)
    ensures NormalizeTypeName(t) == TypeAlias(Lower(c)) + Brackets(|ds|)
  {
    SameLowered(t, c + Spell(ds), c, ds);
    LoweredSpelling(c, ds);
    LowerOfCore(c);
    NormalFormOfName(Lower(c), |ds|);
  }

  // -- The nine aliases -----------------------------------------------------

  /** The short names and what they stand for. */
  predicate Stands(name: string, full: string) {
    || (name == "bool" && full == "boolean") || (name == "float8" && full == "double precision")
    || (name == "int" && full == "integer") || (name == "int2" && full == "smallint") || (name == "int4" && full == "integer")
    || (name == "int8" && full == "bigint") || (name == "timestamptz" && full == "timestamp with time zone")
    || (name == "timetz" && full == "time with time zone") || (name == "varchar" && full == "character varying")
  }

  lemma StandsChars(name: string, full: string)
    requires Stands(name, full)
    ensures name != "" && Lower(name) == name && forall c :: c in name ==> IsWord(c)
  {}

  lemma AliasIs(name: string, full: string)
    requires Stands(name, full)
    ensures TypeAlias(name) == full
  {}

  lemma WordIsCore(c: string)
    requires c != "" && forall x :: x in c ==> IsWord(x)
    ensures Core(c) && !(VARIADIC <= Lower(c))
  {
    WordIsTidy(c);
    WordNotVariadic(c);
  }

  lemma WordIsTidy(c: string)
    requires c != "" && forall x :: x in c ==> IsWord(x)
    ensures Tidy(c)
  {
    assert c[0] in c && c[|c| - 1] in c;
    SqueezeSolid(c);
  }

  lemma WordNotVariadic(c: string)
    requires ' ' !in c
    ensures !(VARIADIC <= Lower(c))
  {
    if |c| > 8 {
      assert c[8] in c && Lower(c)[8] != ' ' && VARIADIC[8] == ' ';
    }
  }

  lemma CaseKeepsWord(c: string, name: string)
    requires SameLetters(c, name) && name != "" && forall x :: x in name ==> IsWord(x)
    ensures c != "" && forall x :: x in c ==> IsWord(x)
  {
    forall x | x in c ensures IsWord(x) {
      var i :| 0 <= i < |c| && c[i] == x;
      assert name[i] in name;
      CaseIff(c[i], name[i]);
    }
  }

  /** Each of the nine short names, in any case and with any brackets, becomes its full name. */
  lemma AliasInAnyCase(t: string, c: string, name: string, full: string, ds: seq<Dim>)
    requires Stands(name, full) && SameLetters(c, name) && Collapse(t) == c + Spell(ds)
    ensures NormalizeTypeName(t) == full + Brackets(|ds|)
  {
    StandsChars(name, full);
    CaseKeepsWord(c, name);
    WordIsCore(c);
    SameLower(c, name);
    AliasIs(name, full);
    NormalizedName(t, c, ds);
  }

  /** Any other name stays, in small letters. */
  lemma OtherNameStays(t: string, c: string, ds: seq<Dim>)
    requires Core(c) && !(VARIADIC <= Lower(c)) && Collapse(t) == c + Spell(ds)
    requires forall name :: ShortName(name) ==> !SameLetters(c, name)
    ensures NormalizeTypeName(t) == Lower(c) + Brackets(|ds|)
  {
    NormalizedName(t, c, ds);
    SameLower(c, Lower(c));
    LowerTwice(c);
    NoAlias(Lower(c));
  }

  predicate ShortName(l: string) {
    || l == "bool" || l == "float8" || l == "int" || l == "int2" || l == "int4" || l == "int8"
    || l == "timestamptz" || l == "timetz" || l == "varchar"
  }

  lemma NoAlias(l: string)
    requires !ShortName(l)
    ensures TypeAlias(l) == l
  {}

  lemma LowerTwice(s: string)
    ensures Lower(Lower(s)) == Lower(s)
  {}

  lemma SameLowered(t: string, u: string, c: string, ds: seq<Dim>)
    requires Core(c) && u == c + Spell(ds) && Collapse(t) == u
    ensures Lowered(t) == Lowered(u)
  {
    CollapseSpelled(c, ds);
  }

  lemma VariadicIsLower()
    ensures Lower(VARIADIC) == VARIADIC
  {}

  lemma LoweredBehind(v: string, c: string, ds: seq<Dim>)
    requires Core(v + c) && Lower(v) == v
    ensures Lowered(v + (c + Spell(ds))) == v + (Lower(c) + Brackets(|ds|))
  {
    Assoc(v, c, Spell(ds));
    LoweredSpelling(v + c, ds);
    LowerAppend(v, c);
    Assoc(v, Lower(c), Brackets(|ds|));
  }

  /** The variadic mark stays in front; the type behind it is normalised as usual. */
  lemma NormalizedVariadic(t: string, c: string, ds: seq<Dim>)
    requires Core(c) && Collapse(t) == VARIADIC + (c + Spell(ds))
    ensures NormalizeTypeName(t) == VARIADIC + (TypeAlias(Lower(c)) + Brackets(|ds|))
  {
    VariadicCore(c);
    VariadicIsLower();
    Assoc(VARIADIC, c, Spell(ds));
    SameLowered(t, VARIADIC + (c + Spell(ds)), VARIADIC + c, ds);
    LoweredBehind(VARIADIC, c, ds);
    LowerOfCore(c);
    NormalFormOfVariadic(Lower(c), |ds|);
  }

  lemma TwoWords(word: string, c: string)
    requires Solid(word) && '[' !in word && ']' !in word && Core(c)
    ensures Core(word + (" " + c))
  {
    SqueezeSolid(word);
    assert word[0] in word;
    assert Squeeze(" ") == " " + Squeeze("");
    SqueezeAppend(" ", c);
    SqueezeAppend(word, " " + c);
  }

  lemma VariadicWord(c: string)
    ensures Solid("variadic") && '[' !in "variadic" && ']' !in "variadic"
    ensures VARIADIC + c == "variadic" + (" " + c)
  {}

  lemma VariadicCore(c: string)
    requires Core(c)
    ensures Core(VARIADIC + c)
  {
    VariadicWord(c);
    TwoWords("variadic", c);
  }

  // -- Every spelling -------------------------------------------------------

  predicate NoPair(s: string, a: char, b: char) {
    forall i :: 0 <= i < |s| - 1 ==> !(s[i] == a && s[i + 1] == b)
  }

  lemma NoPairCons(x: char, r: string, a: char, b: char)
    ensures NoPair([x] + r, a, b) <==> NoPair(r, a, b) && !(r != "" && x == a && r[0] == b)
  {
    var s := [x] + r;
    assert forall i :: 0 <= i < |r| ==> s[i + 1] == r[i];
    if NoPair(r, a, b) && !(r != "" && x == a && r[0] == b) {
      forall i | 0 <= i < |s| - 1 ensures !(s[i] == a && s[i + 1] == b) {
        if i > 0 { assert s[i] == r[i - 1] && s[i + 1] == r[i]; }
      }
    }
    if NoPair(s, a, b) {
      forall i | 0 <= i < |r| - 1 ensures !(r[i] == a && r[i + 1] == b) {
        assert s[i + 1] == r[i] && s[i + 2] == r[i + 1];
      }
      assert r != "" ==> s[0] == x && s[1] == r[0];
    }
  }

  /** Collapsed text has no other whitespace than single spaces. */
  predicate SingleSpaces(s: string) {
    NoPair(s, ' ', ' ') && forall c :: c in s ==> IsSpace(c) ==> c == ' '
  }

  lemma SqueezeFirst(s: string)
    requires s != "" && !IsSpace(s[0])
    ensures Squeeze(s) != "" && Squeeze(s)[0] == s[0]
  {}

  lemma {:induction false} SqueezeSingles(s: string)
    ensures SingleSpaces(Squeeze(s))
    decreases |s|
  {
    if s == "" {
    } else {
      var rest := s[1..];
      SqueezeSingles(rest);
      NoPairCons(s[0], Squeeze(rest), ' ', ' ');
      NoPairCons(' ', Squeeze(rest), ' ', ' ');
      if rest != "" && !IsSpace(rest[0]) { SqueezeFirst(rest); }
    }
  }

  lemma {:induction false} LStripIsSuffix(s: string) returns (k: nat)
    ensures k <= |s| && LStrip(s) == s[k..]
  {
    if s != "" && IsSpace(s[0]) {
      k := LStripIsSuffix(s[1..]);
      k := k + 1;
    } else {
      k := 0;
    }
  }

  lemma SliceKeepsSingles(s: string, i: nat, j: nat)
    requires i <= j <= |s| && SingleSpaces(s)
    ensures SingleSpaces(s[i..j])
  {
    var t := s[i..j];
    forall k | 0 <= k < |t| - 1 ensures !(t[k] == ' ' && t[k + 1] == ' ') {
      assert t[k] == s[i + k] && t[k + 1] == s[i + k + 1];
    }
  }

  lemma CollapsedHasSingles(t: string)
    ensures SingleSpaces(Collapse(t))
  {
    var q := Squeeze(t);
    SqueezeSingles(t);
    var k := LStripIsSuffix(q);
    assert q[k..] == q[k..|q|];
    SliceKeepsSingles(q, k, |q|);
    var l, c := LStrip(q), Collapse(t);
    assert c == l[0..|c|];
    SliceKeepsSingles(l, 0, |c|);
  }

  lemma DropFirst(s: string, c: char)
    requires s != "" && !Pair(s, ' ', c)
    ensures DropSpaceBefore(s, c) != "" && DropSpaceBefore(s, c)[0] == s[0]
  {}

  /** One pass over single spaces leaves none in front of the character. */
  lemma {:induction false} DropLeavesNone(s: string, c: char)
    requires NoPair(s, ' ', ' ') && c != ' '
    ensures NoPair(DropSpaceBefore(s, c), ' ', c)
    decreases |s|
  {
    if s == "" {
    } else if Pair(s, ' ', c) {
      NoPairDrop(s, 2, ' ', ' ');
      DropLeavesNone(s[2..], c);
      NoPairCons(c, DropSpaceBefore(s[2..], c), ' ', c);
    } else {
      var rest := s[1..];
      NoPairDrop(s, 1, ' ', ' ');
      DropLeavesNone(rest, c);
      NoPairCons(s[0], DropSpaceBefore(rest, c), ' ', c);
      if rest != "" && s[0] == ' ' {
        assert rest[0] == s[1];
        DropFirst(rest, c);
      }
    }
  }

  lemma NoPairDrop(s: string, n: nat, a: char, b: char)
    requires n <= |s| && NoPair(s, a, b)
    ensures NoPair(s[n..], a, b)
  {
    var t := s[n..];
    forall k | 0 <= k < |t| - 1 ensures !(t[k] == a && t[k + 1] == b) {
      assert t[k] == s[n + k] && t[k + 1] == s[n + k + 1];
    }
  }

  /** A pass for another character brings none back. */
  lemma {:induction false} DropBringsNone(s: string, c: char, d: char)
    requires NoPair(s, ' ', d) && c != d && c != ' '
    ensures NoPair(DropSpaceBefore(s, c), ' ', d)
    decreases |s|
  {
    if s == "" {
    } else if Pair(s, ' ', c) {
      NoPairDrop(s, 2, ' ', d);
      DropBringsNone(s[2..], c, d);
      NoPairCons(c, DropSpaceBefore(s[2..], c), ' ', d);
    } else {
      var rest := s[1..];
      NoPairDrop(s, 1, ' ', d);
      DropBringsNone(rest, c, d);
      NoPairCons(s[0], DropSpaceBefore(rest, c), ' ', d);
      if rest != "" && s[0] == ' ' {
        assert rest[0] == s[1];
        if Pair(rest, ' ', c) {
          assert DropSpaceBefore(rest, c)[0] == c;
        } else {
          DropFirst(rest, c);
        }
      }
    }
  }

  /** Only characters of the text are left. */
  lemma {:induction false} DropHoldsOnlyOld(s: string, c: char)
    ensures forall x :: x in DropSpaceBefore(s, c) ==> x in s
    decreases |s|
  {
    if s == "" {
    } else {
      var n := if Pair(s, ' ', c) then 2 else 1;
      DropHoldsOnlyOld(s[n..], c);
      forall x | x in DropSpaceBefore(s, c) ensures x in s {
        if x in DropSpaceBefore(s[n..], c) { assert x in s[n..]; }
      }
    }
  }

  /** No space before a bracket or at the start, and no whitespace but spaces. */
  predicate Neat(l: string) {
    && NoPair(l, ' ', '[') && (l == "" || !IsSpace(l[0]))
    && forall c :: c in l ==> IsSpace(c) ==> c == ' '
  }

  lemma DroppedIsNeat(c: string)
    requires SingleSpaces(c) && (c == "" || !IsSpace(c[0]))
    ensures Neat(DropSpaceBefore(DropSpaceBefore(c, '['), ']'))
  {
    var a := DropSpaceBefore(c, '[');
    DropLeavesNone(c, '[');
    DropBringsNone(a, ']', '[');
    DropHoldsOnlyOld(c, '[');
    DropHoldsOnlyOld(a, ']');
    if c != "" {
      DropFirst(c, '[');
      DropFirst(a, ']');
    }
  }

  lemma LowerIsNeat(s: string)
    requires Neat(s)
    ensures Neat(Lower(s))
  {
    var l := Lower(s);
    forall i | 0 <= i < |l| - 1 ensures !(l[i] == ' ' && l[i + 1] == '[') {
      assert !(s[i] == ' ' && s[i + 1] == '[');
    }
    forall c | c in l && IsSpace(c) ensures c == ' ' {
      var i :| 0 <= i < |l| && l[i] == c;
      assert s[i] in s;
    }
  }

  lemma LoweredIsNeat(t: string)
    ensures Neat(Lowered(t))
  {
    CollapsedHasSingles(t);
    CollapsedStart(t);
    DroppedIsNeat(Collapse(t));
    LowerIsNeat(DropSpaceBefore(DropSpaceBefore(Collapse(t), '['), ']'));
  }

  lemma CollapsedStart(t: string)
    ensures Collapse(t) == "" || !IsSpace(Collapse(t)[0])
  {}

  lemma NeatSlice(l: string, i: nat, j: nat)
    requires Neat(l) && i <= j <= |l| && (i == j || !IsSpace(l[i]))
    ensures Neat(l[i..j])
  {
    var t := l[i..j];
    forall k | 0 <= k < |t| - 1 ensures !(t[k] == ' ' && t[k + 1] == '[') {
      assert t[k] == l[i + k] && t[k + 1] == l[i + k + 1];
    }
  }

  predicate EndsInArray(s: string) {
    |s| >= 2 && s[|s| - 2..] == "[]"
  }

  lemma TrimIsIdle(l: string)
    requires Neat(l) && EndsInArray(l)
    ensures Trim(l[..|l| - 2]) == l[..|l| - 2] && Neat(l[..|l| - 2])
  {
    var r := l[..|l| - 2];
    assert l[|l| - 2] == l[|l| - 2..][0] == '[';
    if r != "" {
      assert r[0] == l[0] && r[|r| - 1] == l[|l| - 3] && l[|l| - 3] in l;
    }
    assert r == l[0..|l| - 2];
    NeatSlice(l, 0, |l| - 2);
  }

  /** The brackets taken off are all that stand at the end. */
  lemma TakeOneMore(l: string, r: string, base: string, n: nat)
    requires EndsInArray(l) && r == l[..|l| - 2] && Trim(r) == r
    requires TakeArrays(r) == (base, Brackets(n)) && r == base + Brackets(n)
    ensures TakeArrays(l) == (base, Brackets(n + 1)) && l == base + Brackets(n + 1)
  {
    assert l == r + "[]";
    Assoc(base, Brackets(n), "[]");
  }

  lemma {:induction false} TakenApart(l: string) returns (base: string, n: nat)
    requires Neat(l)
    ensures TakeArrays(l) == (base, Brackets(n)) && l == base + Brackets(n) && !EndsInArray(base)
    decreases |l|
  {
    if EndsInArray(l) {
      var r := l[..|l| - 2];
      TrimIsIdle(l);
      base, n := TakenApart(r);
      TakeOneMore(l, r, base, n);
      n := n + 1;
    } else {
      base, n := l, 0;
      assert l + "" == l;
    }
  }

  lemma TrimmedIsNeat(l: string, i: nat)
    requires Neat(l) && i <= |l|
    ensures Neat(Trim(l[i..]))
  {
    var x := l[i..];
    var k := LStripIsSuffix(x);
    SuffixOfSuffix(l, i, k);
    TrimmedEndIsNeat(l, i + k);
  }

  lemma SuffixOfSuffix(l: string, i: nat, k: nat)
    requires i + k <= |l|
    ensures l[i..][k..] == l[i + k..]
  {}

  lemma TrimmedEndIsNeat(l: string, m: nat)
    requires Neat(l) && m <= |l| && (m == |l| || !IsSpace(l[m]))
    ensures Neat(RStrip(l[m..]))
  {
    var z := RStrip(l[m..]);
    assert z == l[m..][..|z|] == l[m..m + |z|];
    NeatSlice(l, m, m + |z|);
  }

  /**
   Every spelling, whatever it holds: in front of the array brackets at its end
   stands a base, and normalisation is the alias of the base with the same brackets,
   behind the variadic mark if there is one.
   */
  lemma NormalizedAny(t: string) returns (base: string, n: nat)
    ensures var l := Lowered(t);
      && !EndsInArray(base)
      && (if VARIADIC <= l then
            Trim(l[|VARIADIC|..]) == base + Brackets(n) && NormalizeTypeName(t) == VARIADIC + (TypeAlias(base) + Brackets(n))
          else l == base + Brackets(n) && NormalizeTypeName(t) == TypeAlias(base) + Brackets(n))
  {
    var l := Lowered(t);
    LoweredIsNeat(t);
    if VARIADIC <= l {
      TrimmedIsNeat(l, |VARIADIC|);
      base, n := TakenApart(Trim(l[|VARIADIC|..]));
    } else {
      base, n := TakenApart(l);
    }
  }
}
