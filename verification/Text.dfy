/** Character classes and text helpers shared by the models (ASCII). */
module Text {

  predicate IsUpper(c: char) { 'A' <= c <= 'Z' }
  predicate IsLower(c: char) { 'a' <= c <= 'z' }
  predicate IsAlpha(c: char) { IsUpper(c) || IsLower(c) }
  predicate IsDigit(c: char) { '0' <= c <= '9' }
  predicate IsAlnum(c: char) { IsAlpha(c) || IsDigit(c) }
  predicate IsWord(c: char) { IsAlnum(c) || c == '_' }

  /** The ASCII characters matched by `\s` and removed by `strip`. */
  predicate IsSpace(c: char) {
    c == ' ' || 9 as char <= c <= 13 as char || 28 as char <= c <= 31 as char
  }

  function UpperChar(c: char): char {
    if IsLower(c) then (c as int - 32) as char else c
  }

  function LowerChar(c: char): char {
    if IsUpper(c) then (c as int + 32) as char else c
  }

  /** A small letter and the capital of the same place in the alphabet. */
  predicate Partners(small: char, capital: char) {
    'a' <= small <= 'z' && 'A' <= capital <= 'Z' && small as int - 'a' as int == capital as int - 'A' as int
  }

  predicate SameLetter(c: char, d: char) {
    c == d || Partners(c, d) || Partners(d, c)
  }

  /** Letters that differ in case only, and no others, have the same lower and the same upper form. */
  lemma CaseIff(c: char, d: char)
    ensures LowerChar(c) == LowerChar(d) <==> SameLetter(c, d)
    ensures UpperChar(c) == UpperChar(d) <==> SameLetter(c, d)
    ensures SameLetter(c, d) ==> (IsWord(c) <==> IsWord(d))
  {}

  /** The two strings differ in case only. */
  predicate SameLetters(s: string, t: string) {
    |s| == |t| && forall i :: 0 <= i < |s| ==> SameLetter(s[i], t[i])
  }

  /** The classes as regular expressions have them. */
  lemma CharacterClasses(c: char)
    ensures IsWord(c) <==> 'a' <= c <= 'z' || 'A' <= c <= 'Z' || '0' <= c <= '9' || c == '_'
    ensures IsSpace(c) <==> c in " \t\n\r" || 11 as char <= c <= 12 as char || 28 as char <= c <= 31 as char
    ensures IsDigit(c) <==> c in "0123456789"
  {}

  function Upper(s: string): (r: string)
    ensures |r| == |s|
    ensures forall i :: 0 <= i < |s| ==> r[i] == UpperChar(s[i])
  {
    seq(|s|, i requires 0 <= i < |s| => UpperChar(s[i]))
  }

  function Lower(s: string): (r: string)
    ensures |r| == |s|
    ensures forall i :: 0 <= i < |s| ==> r[i] == LowerChar(s[i])
  {
    seq(|s|, i requires 0 <= i < |s| => LowerChar(s[i]))
  }

  lemma SameUpper(s: string, t: string)
    ensures Upper(s) == Upper(t) <==> SameLetters(s, t)
  {
    if |s| == |t| {
      forall i | 0 <= i < |s| ensures Upper(s)[i] == Upper(t)[i] <==> SameLetter(s[i], t[i]) {
        CaseIff(s[i], t[i]);
      }
    }
  }

  lemma SameLower(s: string, t: string)
    ensures Lower(s) == Lower(t) <==> SameLetters(s, t)
  {
    if |s| == |t| {
      forall i | 0 <= i < |s| ensures Lower(s)[i] == Lower(t)[i] <==> SameLetter(s[i], t[i]) {
        CaseIff(s[i], t[i]);
      }
    }
  }

  /** `text.startswith(sub, i)`. */
  predicate At(text: string, i: nat, sub: string) {
    i + |sub| <= |text| && text[i..i + |sub|] == sub
  }

  /** `sub in text`. */
  predicate Contains(text: string, sub: string) {
    exists i :: 0 <= i <= |text| && At(text, i, sub)
  }

  function Join(sep: string, parts: seq<string>): string {
    if parts == [] then ""
    else if |parts| == 1 then parts[0]
    else parts[0] + sep + Join(sep, parts[1..])
  }

  lemma Assoc(a: string, b: string, c: string)
    ensures a + (b + c) == a + b + c
  {}

  lemma SliceOfSlice(s: string, a: nat, b: nat, c: nat, d: nat)
    requires a <= b <= |s| && c <= d <= b - a
    ensures s[a..b][c..d] == s[a + c..a + d]
  {
    var x, y := s[a..b][c..d], s[a + c..a + d];
    forall k | 0 <= k < |x| ensures x[k] == y[k] {
      assert x[k] == s[a..b][c + k];
    }
  }

  /** `s.replace(q, q + q)`: quotes doubled. */
  function Doubled(s: string, q: char): string {
    if s == "" then "" else (if s[0] == q then [q, q] else [s[0]]) + Doubled(s[1..], q)
  }

  datatype Option<+T> = None | Some(value: T)
}
