/** Python's string order (code point by code point) and `sorted` over a set of names. */
module Ordering {

  predicate Less(a: string, b: string) {
    b != "" && (a == "" || a[0] < b[0] || (a[0] == b[0] && Less(a[1..], b[1..])))
  }

  lemma {:induction false} LessIsTotal(a: string, b: string)
    ensures a == b || Less(a, b) || Less(b, a)
  {
    if a != "" && b != "" && a[0] == b[0] {
      LessIsTotal(a[1..], b[1..]);
      assert a == [a[0]] + a[1..] && b == [b[0]] + b[1..];
    }
  }

  lemma {:induction false} LessIsAsymmetric(a: string, b: string)
    requires Less(a, b)
    ensures !Less(b, a)
  {
    if a != "" && a[0] == b[0] {
      LessIsAsymmetric(a[1..], b[1..]);
    }
  }

  lemma {:induction false} LessIsTransitive(a: string, b: string, c: string)
    requires Less(a, b) && Less(b, c)
    ensures Less(a, c)
  {
    if a != "" && a[0] == b[0] == c[0] {
      LessIsTransitive(a[1..], b[1..], c[1..]);
    }
  }

  /** The strings agree up to i, and there the first has the smaller character. */
  predicate SmallerAt(a: string, b: string, i: nat) {
    i < |a| && i < |b| && a[..i] == b[..i] && a[i] < b[i]
  }

  lemma SmallerBehind(x: char, s: string, t: string, i: nat)
    ensures SmallerAt([x] + s, [x] + t, i + 1) <==> SmallerAt(s, t, i)
    ensures !SmallerAt([x] + s, [x] + t, 0)
  {
    if i < |s| && i < |t| {
      assert ([x] + s)[..i + 1] == [x] + s[..i] && ([x] + t)[..i + 1] == [x] + t[..i];
      assert ([x] + s[..i])[1..] == s[..i] && ([x] + t[..i])[1..] == t[..i];
    }
  }

  lemma DiffersAtOnce(a: string, b: string, i: nat)
    requires a != "" && b != "" && a[0] != b[0]
    ensures SmallerAt(a, b, i) <==> i == 0 && a[0] < b[0]
  {
    assert a[..0] == b[..0] == "";
    if 0 < i < |a| && i < |b| {
      assert a[..i][0] == a[0] && b[..i][0] == b[0];
    }
  }

  /** The first place where two strings differ decides, by code point; a prefix comes before what it begins. */
  lemma {:induction false} LessIff(a: string, b: string)
    ensures Less(a, b) <==> a < b || exists i: nat :: SmallerAt(a, b, i)
  {
    if a != "" && b != "" {
      if a[0] == b[0] {
        var x, s, t := a[0], a[1..], b[1..];
        LessIff(s, t);
        assert a == [x] + s && b == [x] + t;
        if i: nat :| SmallerAt(s, t, i) {
          SmallerBehind(x, s, t, i);
        }
        if i: nat :| SmallerAt(a, b, i) {
          SmallerBehind(x, s, t, if i == 0 then 0 else i - 1);
        }
      } else {
        forall i: nat ensures SmallerAt(a, b, i) <==> i == 0 && a[0] < b[0] {
          DiffersAtOnce(a, b, i);
        }
        assert SmallerAt(a, b, 0) <==> a[0] < b[0];
      }
    }
  }

  predicate Ascending(s: seq<string>) {
    forall i, j :: 0 <= i < j < |s| ==> Less(s[i], s[j])
  }

  function Elems<T>(s: seq<T>): set<T> {
    set x | x in s
  }

  predicate IsLeast(m: string, s: set<string>) {
    m in s && forall x | x in s :: x != m ==> Less(m, x)
  }

  lemma {:induction false} LeastExists(s: set<string>)
    requires s != {}
    ensures exists m :: IsLeast(m, s)
  {
    var x :| x in s;
    if s == {x} {
      assert IsLeast(x, s);
    } else {
      LeastExists(s - {x});
      var m :| IsLeast(m, s - {x});
      LessIsTotal(m, x);
      if Less(m, x) {
        assert IsLeast(m, s);
      } else {
        forall y | y in s && y != x ensures Less(x, y) {
          if y != m { LessIsTransitive(x, m, y); }
        }
        assert IsLeast(x, s);
      }
    }
  }

  lemma LeastIsUnique(a: string, b: string, s: set<string>)
    requires IsLeast(a, s) && IsLeast(b, s)
    ensures a == b
  {
    if a != b { LessIsAsymmetric(a, b); }
  }

  lemma PrependLeast(m: string, rest: seq<string>, s: set<string>)
    requires IsLeast(m, s) && Elems(rest) == s - {m} && Ascending(rest)
    ensures Ascending([m] + rest) && Elems([m] + rest) == s
  {
    var r := [m] + rest;
    forall i, j | 0 <= i < j < |r| ensures Less(r[i], r[j]) {
      assert r[j] == rest[j - 1] && rest[j - 1] in Elems(rest);
    }
    assert forall x :: x in s - {m} <==> x in Elems(rest);
    assert forall x :: x in Elems(r) <==> x == m || x in Elems(rest);
    assert Elems(r) == {m} + Elems(rest);
  }

  /** Python's `sorted` on a set: the one strictly ascending listing of its elements. */
  function Sorted(s: set<string>): (r: seq<string>)
    ensures Ascending(r) && Elems(r) == s && |r| == |s|
  {
    if s == {} then [] else
      LeastExists(s);
      assert forall a, b :: IsLeast(a, s) && IsLeast(b, s) ==> a == b by {
        forall a, b | IsLeast(a, s) && IsLeast(b, s) ensures a == b { LeastIsUnique(a, b, s); }
      }
      var m :| IsLeast(m, s);
      PrependLeast(m, Sorted(s - {m}), s);
      [m] + Sorted(s - {m})
  }
}
