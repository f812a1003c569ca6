/** Comparing two catalog manifests after the extension owner's name is normalised. */
module CatalogManifest {
  import opened Ordering

  /** A JSON value; there is one kind of number. */
  datatype Json =
    | Null
    | Bool(b: bool)
    | Number(n: int)
    | Str(s: string)
    | List(items: seq<Json>)
    | Object(fields: map<string, Json>)

  const OWNER_TOKEN := "<extension_owner>"

  // -- Normalising the owner ------------------------------------------------

  /** Every string value equal to `from` becomes `to`; keys are left alone. */
  function Rename(v: Json, from: string, to: string): Json {
    match v
    case Object(fields) => Object(map k | k in fields :: Rename(fields[k], from, to))
    case List(items) => List(seq(|items|, i requires 0 <= i < |items| => Rename(items[i], from, to)))
    case Str(s) => if s == from then Str(to) else v
    case _ => v
  }

  function NormalizeValue(v: Json, owner: string): Json {
    Rename(v, owner, OWNER_TOKEN)
  }

  /** Names of the owner become the token, at the root, in lists and under keys, which stay. */
  lemma OwnerBecomesToken(owner: string, key: string)
    ensures NormalizeValue(Str(owner), owner) == Str("<extension_owner>")
    ensures NormalizeValue(List([Str(owner)]), owner) == List([Str("<extension_owner>")])
    ensures NormalizeValue(Object(map[key := Str(owner)]), owner) == Object(map[key := Str("<extension_owner>")])
  {}

  /** The name occurs as a string value somewhere in the tree. */
  predicate Occurs(v: Json, name: string) {
    match v
    case Object(fields) => exists k | k in fields :: Occurs(fields[k], name)
    case List(items) => exists i | 0 <= i < |items| :: Occurs(items[i], name)
    case Str(s) => s == name
    case _ => false
  }

  lemma {:induction false} NormalizeIsIdempotent(v: Json, owner: string)
    ensures NormalizeValue(NormalizeValue(v, owner), owner) == NormalizeValue(v, owner)
  {
    match v
    case Object(fields) =>
      forall k | k in fields { NormalizeIsIdempotent(fields[k], owner); }
    case List(items) =>
      forall i | 0 <= i < |items| { NormalizeIsIdempotent(items[i], owner); }
    case _ =>
  }

  /**
   A manifest and the same manifest under another owner normalise alike exactly
   when the other owner's name is fresh, or is the token, or is the same name.
   */
  lemma {:induction false} RenamedOwnerNormalizesAlikeIff(v: Json, o: string, p: string)
    ensures NormalizeValue(v, o) == NormalizeValue(Rename(v, o, p), p)
       <==> o == p || p == OWNER_TOKEN || !Occurs(v, p)
  {
    var spare := o == p || p == OWNER_TOKEN;
    match v
    case Object(fields) =>
      var a, b := NormalizeValue(v, o).fields, NormalizeValue(Rename(v, o, p), p).fields;
      forall k | k in fields ensures a[k] == b[k] <==> spare || !Occurs(fields[k], p) {
        RenamedOwnerNormalizesAlikeIff(fields[k], o, p);
      }
      assert a == b <==> forall k | k in fields :: a[k] == b[k];
    case List(items) =>
      var a, b := NormalizeValue(v, o).items, NormalizeValue(Rename(v, o, p), p).items;
      forall i | 0 <= i < |items| ensures a[i] == b[i] <==> spare || !Occurs(items[i], p) {
        RenamedOwnerNormalizesAlikeIff(items[i], o, p);
      }
      assert a == b <==> forall i | 0 <= i < |items| :: a[i] == b[i];
    case _ =>
  }

  // -- The diff -------------------------------------------------------------

  datatype Change = Change(path: string, left: Json, right: Json)
  datatype Diff = Diff(leftOnly: seq<string>, rightOnly: seq<string>, changed: seq<Change>)

  const NONE := Diff([], [], [])

  function Then(a: Diff, b: Diff): Diff {
    Diff(a.leftOnly + b.leftOnly, a.rightOnly + b.rightOnly, a.changed + b.changed)
  }

  function Compare(left: Json, right: Json, path: string): Diff
    decreases left, 2, 0
  {
    if left.Object? && right.Object? then
      var keys := Sorted(left.fields.Keys + right.fields.Keys);
      assert forall k :: k in keys ==> k in Elems(keys);
      CompareKeys(left, right, keys, path)
    else if left == right then NONE
    else Diff([], [], [Change(path, left, right)])
  }

  function CompareKey(left: Json, right: Json, key: string, path: string): Diff
    requires left.Object? && right.Object? && (key in left.fields || key in right.fields)
    decreases left, 0, 0
  {
    if key !in left.fields then Diff([], [path + "." + key], [])
    else if key !in right.fields then Diff([path + "." + key], [], [])
    else Compare(left.fields[key], right.fields[key], path + "." + key)
  }

  predicate KeysOf(keys: seq<string>, left: Json, right: Json)
    requires left.Object? && right.Object?
  {
    forall k :: k in keys ==> k in left.fields || k in right.fields
  }

  function CompareKeys(left: Json, right: Json, keys: seq<string>, path: string): Diff
    requires left.Object? && right.Object? && KeysOf(keys, left, right)
    decreases left, 1, |keys|
  {
    if keys == [] then NONE
    else Then(CompareKeys(left, right, keys[..|keys| - 1], path), CompareKey(left, right, keys[|keys| - 1], path))
  }

  lemma KeysStep(left: Json, right: Json, keys: seq<string>, i: nat, path: string)
    requires left.Object? && right.Object? && i < |keys| && KeysOf(keys, left, right)
    ensures KeysOf(keys[..i + 1], left, right) && KeysOf(keys[..i], left, right)
    ensures CompareKeys(left, right, keys[..i + 1], path) ==
            Then(CompareKeys(left, right, keys[..i], path), CompareKey(left, right, keys[i], path))
  {
    assert keys[..i + 1][..i] == keys[..i] && keys[..i + 1][i] == keys[i];
  }

  /** `compare`, extending its three lists key by key. */
  method CompareTrees(left: Json, right: Json, path: string) returns (diff: Diff)
    ensures diff == Compare(left, right, path)
    decreases left, 1
  {
    diff := NONE;
    if left.Object? && right.Object? {
      var keys := Sorted(left.fields.Keys + right.fields.Keys);
      assert forall k :: k in keys ==> k in Elems(keys);
      for i := 0 to |keys|
        invariant diff == CompareKeys(left, right, keys[..i], path)
      {
        KeysStep(left, right, keys, i, path);
        var child := CompareAt(left, right, keys[i], path);
        diff := Then(diff, child);
      }
      assert keys[..|keys|] == keys;
    } else if left != right {
      diff := Diff([], [], [Change(path, left, right)]);
    }
  }

  /** The body of its loop. */
  method CompareAt(left: Json, right: Json, key: string, path: string) returns (diff: Diff)
    requires left.Object? && right.Object? && (key in left.fields || key in right.fields)
    ensures diff == CompareKey(left, right, key, path)
    decreases left, 0
  {
    var childPath := path + "." + key;
    if key !in left.fields {
      return Diff([], [childPath], []);
    }
    if key !in right.fields {
      return Diff([childPath], [], []);
    }
    diff := CompareTrees(left.fields[key], right.fields[key], childPath);
  }

  // -- Laws -----------------------------------------------------------------

  /** The diff is empty exactly when the trees are equal. */
  lemma {:induction false} EmptyIffEqual(left: Json, right: Json, path: string)
    ensures Compare(left, right, path) == NONE <==> left == right
    decreases left, 2
  {
    if left.Object? && right.Object? {
      var keys := Sorted(left.fields.Keys + right.fields.Keys);
      assert forall k :: k in keys <==> k in Elems(keys);
      KeysEmptyIff(left, right, keys, path);
      assert left.fields == right.fields <==> forall k :: k in keys ==> SameAt(left, right, k);
    }
  }

  predicate SameAt(left: Json, right: Json, k: string)
    requires left.Object? && right.Object?
  {
    k in left.fields && k in right.fields && left.fields[k] == right.fields[k]
  }

  lemma {:induction false} KeysEmptyIff(left: Json, right: Json, keys: seq<string>, path: string)
    requires left.Object? && right.Object? && KeysOf(keys, left, right)
    ensures CompareKeys(left, right, keys, path) == NONE <==> forall k :: k in keys ==> SameAt(left, right, k)
    decreases left, 1, |keys|
  {
    if keys != [] {
      var init, last := keys[..|keys| - 1], keys[|keys| - 1];
      KeysEmptyIff(left, right, init, path);
      if last in left.fields && last in right.fields {
        EmptyIffEqual(left.fields[last], right.fields[last], path + "." + last);
      }
      ThenIsNone(CompareKeys(left, right, init, path), CompareKey(left, right, last, path));
      assert CompareKey(left, right, last, path) == NONE <==> SameAt(left, right, last);
      assert keys == init + [last] && forall k :: k in keys <==> k in init || k == last;
    }
  }

  lemma ThenIsNone(a: Diff, b: Diff)
    ensures Then(a, b) == NONE <==> a == NONE && b == NONE
  {
    assert |(a.leftOnly + b.leftOnly)| == |a.leftOnly| + |b.leftOnly|;
    assert |(a.rightOnly + b.rightOnly)| == |a.rightOnly| + |b.rightOnly|;
    assert |(a.changed + b.changed)| == |a.changed| + |b.changed|;
  }

  function SwapChanges(c: seq<Change>): seq<Change> {
    seq(|c|, i requires 0 <= i < |c| => Change(c[i].path, c[i].right, c[i].left))
  }

  function Swap(d: Diff): Diff {
    Diff(d.rightOnly, d.leftOnly, SwapChanges(d.changed))
  }

  lemma SwapThen(a: Diff, b: Diff)
    ensures Swap(Then(a, b)) == Then(Swap(a), Swap(b))
  {}

  /** Comparing the other way round swaps the two sides of the diff. */
  lemma {:induction false} CompareIsAntisymmetric(left: Json, right: Json, path: string)
    ensures Compare(right, left, path) == Swap(Compare(left, right, path))
    decreases left, 2
  {
    if left.Object? && right.Object? {
      assert left.fields.Keys + right.fields.Keys == right.fields.Keys + left.fields.Keys;
      var keys := Sorted(left.fields.Keys + right.fields.Keys);
      assert forall k :: k in keys <==> k in Elems(keys);
      KeysSwap(left, right, keys, path);
    }
  }

  lemma {:induction false} KeysSwap(left: Json, right: Json, keys: seq<string>, path: string)
    requires left.Object? && right.Object? && KeysOf(keys, left, right)
    ensures CompareKeys(right, left, keys, path) == Swap(CompareKeys(left, right, keys, path))
    decreases left, 1, |keys|
  {
    if keys != [] {
      var init, last := keys[..|keys| - 1], keys[|keys| - 1];
      KeysSwap(left, right, init, path);
      if last in left.fields && last in right.fields {
        CompareIsAntisymmetric(left.fields[last], right.fields[last], path + "." + last);
      }
      SwapThen(CompareKeys(left, right, init, path), CompareKey(left, right, last, path));
    }
  }

  /** Two installations that differ only in a fresh owner name show no difference. */
  lemma OwnerNameDoesNotShow(v: Json, o: string, p: string)
    ensures Compare(NormalizeValue(v, o), NormalizeValue(Rename(v, o, p), p), "$") == NONE
       <==> o == p || p == OWNER_TOKEN || !Occurs(v, p)
  {
    RenamedOwnerNormalizesAlikeIff(v, o, p);
    EmptyIffEqual(NormalizeValue(v, o), NormalizeValue(Rename(v, o, p), p), "$");
  }
}
