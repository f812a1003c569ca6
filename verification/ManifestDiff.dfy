/** What a manifest diff reports: every place where the two trees part, and nothing else. */
module ManifestDiff {
  import opened Text
  import opened Ordering
  import opened CatalogManifest

  // -- Places in a tree -----------------------------------------------------

  /** The value reached by descending through objects. */
  function Sub(v: Json, ks: seq<string>): Option<Json> {
    if ks == [] then Some(v)
    else if v.Object? && ks[0] in v.fields then Sub(v.fields[ks[0]], ks[1..])
    else None
  }

  /** Normalising changes every place on its own, and no key. */
  lemma {:induction false} NormalizedPlaces(v: Json, owner: string, ks: seq<string>)
    ensures Sub(NormalizeValue(v, owner), ks) ==
      if Sub(v, ks).None? then None else Some(NormalizeValue(Sub(v, ks).value, owner))
    decreases |ks|
  {
    if ks != [] && v.Object? && ks[0] in v.fields {
      NormalizedPlaces(v.fields[ks[0]], owner, ks[1..]);
    }
  }

  function PathText(path: string, ks: seq<string>): string
    decreases |ks|
  {
    if ks == [] then path else PathText(path + "." + ks[0], ks[1..])
  }

  /** Both trees hold an object one step above. */
  predicate Siblings(left: Json, right: Json, ks: seq<string>)
    requires ks != []
  {
    var l, r := Sub(left, ks[..|ks| - 1]), Sub(right, ks[..|ks| - 1]);
    l.Some? && l.value.Object? && r.Some? && r.value.Object?
  }

  // -- Entries of a diff ----------------------------------------------------

  datatype Entry = LeftOnly(path: string) | RightOnly(path: string) | Changed(change: Change)

  predicate Has(d: Diff, e: Entry) {
    match e
    case LeftOnly(path) => path in d.leftOnly
    case RightOnly(path) => path in d.rightOnly
    case Changed(change) => change in d.changed
  }

  /**
   The trees part at ks in the way e says: one has a value where the other's object
   has none, or both have one, and these are unequal and not both objects.
   */
  predicate PartsAt(left: Json, right: Json, path: string, ks: seq<string>, e: Entry) {
    var l, r, here := Sub(left, ks), Sub(right, ks), PathText(path, ks);
    match e
    case LeftOnly(p) => p == here && ks != [] && Siblings(left, right, ks) && l.Some? && r.None?
    case RightOnly(p) => p == here && ks != [] && Siblings(left, right, ks) && l.None? && r.Some?
    case Changed(c) =>
      && c.path == here && l == Some(c.left) && r == Some(c.right)
      && c.left != c.right && !(c.left.Object? && c.right.Object?)
  }

  // -- One step down --------------------------------------------------------

  lemma SubStep(v: Json, k: string, rest: seq<string>)
    requires v.Object? && k in v.fields
    ensures Sub(v, [k] + rest) == Sub(v.fields[k], rest)
  {
    assert ([k] + rest)[1..] == rest;
  }

  lemma SiblingsStep(left: Json, right: Json, k: string, rest: seq<string>)
    requires left.Object? && right.Object? && rest != []
    ensures Siblings(left, right, [k] + rest) <==>
      k in left.fields && k in right.fields && Siblings(left.fields[k], right.fields[k], rest)
  {
    var ks, init := [k] + rest, rest[..|rest| - 1];
    assert ks[..|ks| - 1] == [k] + init && ([k] + init)[1..] == init;
  }

  /** Below a common key the places are those of the two subtrees. */
  lemma PartsBelow(left: Json, right: Json, path: string, k: string, rest: seq<string>, e: Entry)
    requires left.Object? && right.Object? && k in left.fields && k in right.fields
    ensures PartsAt(left, right, path, [k] + rest, e) <==>
      PartsAt(left.fields[k], right.fields[k], path + "." + k, rest, e)
  {
    SubStep(left, k, rest);
    SubStep(right, k, rest);
    assert ([k] + rest)[1..] == rest;
    if rest != [] {
      SiblingsStep(left, right, k, rest);
    }
  }

  // -- Soundness ------------------------------------------------------------

  lemma {:induction false} KeyOfEntry(left: Json, right: Json, keys: seq<string>, path: string, e: Entry) returns (k: string)
    requires left.Object? && right.Object? && KeysOf(keys, left, right)
    requires Has(CompareKeys(left, right, keys, path), e)
    ensures k in keys && Has(CompareKey(left, right, k, path), e)
  {
    var last := keys[|keys| - 1];
    if Has(CompareKey(left, right, last, path), e) {
      k := last;
    } else {
      k := KeyOfEntry(left, right, keys[..|keys| - 1], path, e);
    }
  }

  lemma EntryOfMissingKey(left: Json, right: Json, path: string, k: string, e: Entry)
    requires left.Object? && right.Object? && (k in left.fields <==> k !in right.fields)
    ensures Has(CompareKey(left, right, k, path), e) <==> PartsAt(left, right, path, [k], e)
  {
    assert [k][..|[k]| - 1] == [] && [k][1..] == [];
    assert Sub(left, [k]).Some? <==> k in left.fields;
    assert Sub(right, [k]).Some? <==> k in right.fields;
    assert PathText(path, [k]) == path + "." + k;
  }

  /** Every entry reports a place where the trees part. */
  lemma {:induction false} EntryIsADifference(left: Json, right: Json, path: string, e: Entry) returns (ks: seq<string>)
    requires Has(Compare(left, right, path), e)
    ensures PartsAt(left, right, path, ks, e)
    decreases left
  {
    if left.Object? && right.Object? {
      var keys := Sorted(left.fields.Keys + right.fields.Keys);
      assert forall k :: k in keys <==> k in Elems(keys);
      var k := KeyOfEntry(left, right, keys, path, e);
      if k in left.fields && k in right.fields {
        var rest := EntryIsADifference(left.fields[k], right.fields[k], path + "." + k, e);
        ks := [k] + rest;
        PartsBelow(left, right, path, k, rest, e);
      } else {
        EntryOfMissingKey(left, right, path, k, e);
        ks := [k];
      }
    } else {
      ks := [];
    }
  }

  // -- Completeness ---------------------------------------------------------

  lemma {:induction false} EntryOfKey(left: Json, right: Json, keys: seq<string>, path: string, k: string, e: Entry)
    requires left.Object? && right.Object? && KeysOf(keys, left, right) && k in keys
    requires Has(CompareKey(left, right, k, path), e)
    ensures Has(CompareKeys(left, right, keys, path), e)
  {
    var init, last := keys[..|keys| - 1], keys[|keys| - 1];
    if k != last {
      assert k in init;
      EntryOfKey(left, right, init, path, k, e);
    }
  }

  lemma EntryInObject(left: Json, right: Json, path: string, k: string, e: Entry)
    requires left.Object? && right.Object? && (k in left.fields || k in right.fields)
    requires Has(CompareKey(left, right, k, path), e)
    ensures Has(Compare(left, right, path), e)
  {
    var keys := Sorted(left.fields.Keys + right.fields.Keys);
    assert forall x :: x in keys <==> x in Elems(keys);
    EntryOfKey(left, right, keys, path, k, e);
  }

  /** Every place where the trees part has its entry. */
  lemma {:induction false} DifferenceIsAnEntry(left: Json, right: Json, path: string, ks: seq<string>, e: Entry)
    requires PartsAt(left, right, path, ks, e)
    ensures Has(Compare(left, right, path), e)
    decreases |ks|
  {
    if ks != [] {
      var k, rest := ks[0], ks[1..];
      assert ks == [k] + rest;
      BothObjects(left, right, path, ks, e);
      if k in left.fields && k in right.fields {
        PartsBelow(left, right, path, k, rest, e);
        DifferenceIsAnEntry(left.fields[k], right.fields[k], path + "." + k, rest, e);
      } else {
        assert rest == [] && ks == [k];
        EntryOfMissingKey(left, right, path, k, e);
      }
      EntryInObject(left, right, path, k, e);
    }
  }

  lemma BothObjects(left: Json, right: Json, path: string, ks: seq<string>, e: Entry)
    requires ks != [] && PartsAt(left, right, path, ks, e)
    ensures left.Object? && right.Object? && (ks[0] in left.fields || ks[0] in right.fields)
    ensures |ks| > 1 ==> ks[0] in left.fields && ks[0] in right.fields
  {
    var init := ks[..|ks| - 1];
    if |ks| > 1 {
      assert init[0] == ks[0];
    } else {
      assert init == [];
    }
  }

  /** The diff holds an entry exactly when the trees part that way somewhere. */
  lemma DiffIsExact(left: Json, right: Json, path: string, e: Entry)
    ensures Has(Compare(left, right, path), e) <==> exists ks :: PartsAt(left, right, path, ks, e)
  {
    if Has(Compare(left, right, path), e) {
      var ks := EntryIsADifference(left, right, path, e);
    } else if exists ks :: PartsAt(left, right, path, ks, e) {
      var ks :| PartsAt(left, right, path, ks, e);
      DifferenceIsAnEntry(left, right, path, ks, e);
    }
  }
}
