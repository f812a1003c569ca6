/** Python's `strip` family and the whitespace squeeze of the signature parser. */
module Whitespace {
  import opened Text

  function LStrip(s: string): (r: string)
    ensures r == "" || !IsSpace(r[0])
  {
    if s != "" && IsSpace(s[0]) then LStrip(s[1..]) else s
  }

  function RStrip(s: string): (r: string)
    ensures r <= s && (r == "" || !IsSpace(r[|r| - 1]))
  {
    if s != "" && IsSpace(s[|s| - 1]) then RStrip(s[..|s| - 1]) else s
  }

  function Trim(s: string): string {
    RStrip(LStrip(s))
  }

  /** `re.sub(r"\s+", " ", s)`: every run of whitespace becomes one space. */
  function Squeeze(s: string): string
    decreases |s|
  {
    if s == "" then ""
    else if !IsSpace(s[0]) then [s[0]] + Squeeze(s[1..])
    else if |s| > 1 && IsSpace(s[1]) then Squeeze(s[1..])
    else " " + Squeeze(s[1..])
  }

  function Collapse(s: string): string {
    Trim(Squeeze(s))
  }

  /** Already in collapsed form: single spaces inside, none at the ends. */
  predicate Tidy(s: string) {
    s != "" && Squeeze(s) == s && !IsSpace(s[0]) && !IsSpace(s[|s| - 1])
  }

  lemma {:induction false} RStripAppend(a: string, b: string)
    requires a == "" || !IsSpace(a[|a| - 1])
    ensures RStrip(a + b) == a + RStrip(b)
    decreases |b|
  {
    var s := a + b;
    if b == "" {
      assert s == a;
    } else {
      assert s[|s| - 1] == b[|b| - 1];
      if IsSpace(b[|b| - 1]) {
        assert s[..|s| - 1] == a + b[..|b| - 1];
        RStripAppend(a, b[..|b| - 1]);
      }
    }
  }

  lemma {:induction false} SqueezeAppend(a: string, b: string)
    requires a == "" || b == "" || !IsSpace(a[|a| - 1]) || !IsSpace(b[0])
    ensures Squeeze(a + b) == Squeeze(a) + Squeeze(b)
    decreases |a|
  {
    if a == "" {
      assert a + b == b;
    } else if b == "" {
      assert a + b == a && Squeeze(a) + "" == Squeeze(a);
    } else {
      SqueezeAppend(a[1..], b);
      TailOfConcat(a, b);
      SameLead(a, b);
      SqueezeFirst(a + b, a, Lead(a), Squeeze(a[1..]), Squeeze(b));
    }
  }

  /** What squeezing leaves of the first character. */
  function Lead(s: string): string
    requires s != ""
  {
    if !IsSpace(s[0]) then [s[0]] else if |s| > 1 && IsSpace(s[1]) then "" else " "
  }

  lemma SqueezeNext(s: string, t: string)
    requires s != "" && t == s[1..]
    ensures Squeeze(s) == Lead(s) + Squeeze(t)
  {
    assert "" + Squeeze(t) == Squeeze(t);
  }

  lemma SameLead(a: string, b: string)
    requires a != "" && b != "" && (!IsSpace(a[|a| - 1]) || !IsSpace(b[0]))
    ensures Lead(a + b) == Lead(a)
  {
    assert (a + b)[0] == a[0] && (a + b)[1] == if |a| > 1 then a[1] else b[0];
  }

  lemma TailOfConcat(a: string, b: string)
    requires a != ""
    ensures (a + b)[1..] == a[1..] + b
  {}

  lemma SqueezeFirst(s: string, a: string, lead: string, rest: string, end: string)
    requires s != "" && a != "" && Lead(s) == Lead(a) == lead && rest == Squeeze(a[1..]) && Squeeze(s[1..]) == rest + end
    ensures Squeeze(s) == Squeeze(a) + end
  {
    SqueezeNext(a, a[1..]);
    SqueezeNext(s, s[1..]);
    Assoc(lead, rest, end);
  }

  lemma {:induction false} SqueezeStartsWithSpace(b: string)
    requires b != "" && IsSpace(b[0])
    ensures Squeeze(b) != "" && Squeeze(b)[0] == ' '
    decreases |b|
  {
    if |b| > 1 && IsSpace(b[1]) { SqueezeStartsWithSpace(b[1..]); }
  }

  lemma {:induction false} SqueezeSpaces(s: string)
    requires forall c :: c in s ==> IsSpace(c)
    ensures Squeeze(s) == if s == "" then "" else " "
  {
    if s != "" {
      assert s[0] in s && forall c :: c in s[1..] ==> c in s;
      assert |s| > 1 ==> s[1] in s;
      SqueezeSpaces(s[1..]);
      assert " " + "" == " ";
    }
  }

  /** Squeezing keeps the ends of a text that does not begin or end with space. */
  lemma {:induction false} SqueezeEnds(s: string)
    requires s != "" && !IsSpace(s[|s| - 1])
    ensures var r := Squeeze(s); r != "" && r[|r| - 1] == s[|s| - 1] && (!IsSpace(s[0]) ==> r[0] == s[0])
  {
    if |s| > 1 {
      SqueezeEnds(s[1..]);
    } else {
      assert s[1..] == "";
    }
  }

  /** One word. */
  predicate Solid(w: string) {
    w != "" && forall c :: c in w ==> !IsSpace(c)
  }

  lemma {:induction false} SqueezeSolid(w: string)
    requires forall c :: c in w ==> !IsSpace(c)
    ensures Squeeze(w) == w
  {
    if w != "" {
      assert w[0] in w;
      SqueezeSolid(w[1..]);
    }
  }
}
