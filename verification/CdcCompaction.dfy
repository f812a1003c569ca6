/**
 Compaction of a change buffer: the DELETE that keeps, per row identity and
 consumer window, only the endpoint events of the row's history, and what a
 consumer of that window can tell afterwards.
 */
module CdcCompaction {
  import opened Text

  datatype Action = InsertImage | DeleteImage | TruncateMark
  datatype Change = Change(rowId: string, image: string, lsn: int, action: Action)
  datatype Window = Window(previous: int, upto: int)

  // -- The checked kernel ---------------------------------------------------

  function EventWeight(a: Action): int {
    match a case InsertImage => 1 case DeleteImage => -1 case TruncateMark => 0
  }

  predicate InWindow(lsn: int, w: Window) {
    lsn > w.previous && lsn <= w.upto
  }

  predicate CanCompactHistory(uniqueIdentity: bool, singleConsumer: bool, truncateBarrier: bool) {
    uniqueIdentity && singleConsumer && !truncateBarrier
  }

  /** Whether the event with these ranks in its row's history is removed. */
  predicate EventPruned(first: Action, last: Action, asc: nat, desc: nat) {
    var interior := asc > 1 && desc > 1;
    match (first, last)
    case (InsertImage, DeleteImage) => true
    case (InsertImage, InsertImage) => interior || (asc == 1 && desc > 1)
    case (DeleteImage, DeleteImage) => interior || (desc == 1 && asc > 1)
    case (_, _) => interior
  }

  // -- The DELETE over a whole buffer, rows in change_id order --------------

  predicate Selected(c: Change, w: Window) {
    !c.action.TruncateMark? && InWindow(c.lsn, w)
  }

  /** One row's events in the window, in order. */
  function History(log: seq<Change>, w: Window, row: string): seq<Change> {
    if log == [] then []
    else
      var c := log[|log| - 1];
      History(log[..|log| - 1], w, row) + (if Selected(c, w) && c.rowId == row then [c] else [])
  }

  lemma {:induction false} HistoryConcat(a: seq<Change>, b: seq<Change>, w: Window, row: string)
    ensures History(a + b, w, row) == History(a, w, row) + History(b, w, row)
    decreases |b|
  {
    if b == [] {
      assert a + b == a;
    } else {
      var s := a + b;
      assert s[..|s| - 1] == a + b[..|b| - 1] && s[|s| - 1] == b[|b| - 1];
      HistoryConcat(a, b[..|b| - 1], w, row);
    }
  }

  lemma HistoryOfOne(c: Change, w: Window, row: string)
    ensures History([c], w, row) == if Selected(c, w) && c.rowId == row then [c] else []
  {
    assert [c][..0] == [];
  }

  /** The history around position k. */
  lemma HistoryAt(log: seq<Change>, w: Window, row: string, k: nat)
    requires k < |log|
    ensures var c := log[k];
      && History(log[..k + 1], w, row) == History(log[..k], w, row) + History([c], w, row)
      && History(log[k..], w, row) == History([c], w, row) + History(log[k + 1..], w, row)
      && History(log, w, row) == History(log[..k + 1], w, row) + History(log[k + 1..], w, row)
  {
    assert log[..k + 1] == log[..k] + [log[k]] && log[k..] == [log[k]] + log[k + 1..];
    assert log == log[..k + 1] + log[k + 1..];
    HistoryConcat(log[..k], [log[k]], w, row);
    HistoryConcat([log[k]], log[k + 1..], w, row);
    HistoryConcat(log[..k + 1], log[k + 1..], w, row);
  }

  /** Row k is deleted: ranked among its row's selected changes, up and down, against their first and last action. */
  predicate Pruned(log: seq<Change>, w: Window, k: nat)
    requires k < |log|
  {
    var c := log[k];
    var h := History(log, w, c.rowId);
    HistoryAt(log, w, c.rowId, k);
    HistoryOfOne(c, w, c.rowId);
    Selected(c, w) && EventPruned(h[0].action, h[|h| - 1].action,
                                  |History(log[..k + 1], w, c.rowId)|, |History(log[k..], w, c.rowId)|)
  }

  function CompactUpTo(log: seq<Change>, w: Window, k: nat): seq<Change>
    requires k <= |log|
  {
    if k == 0 then []
    else CompactUpTo(log, w, k - 1) + (if Pruned(log, w, k - 1) then [] else [log[k - 1]])
  }

  function Compact(log: seq<Change>, w: Window): seq<Change> {
    CompactUpTo(log, w, |log|)
  }

  // -- Histories and compaction ---------------------------------------------

  /** The first n events of a history that the endpoint rule keeps. */
  function KeptUpTo(h: seq<Change>, n: nat): seq<Change>
    requires n <= |h|
  {
    if n == 0 then [] else
      KeptUpTo(h, n - 1) + if EventPruned(h[0].action, h[|h| - 1].action, n, |h| + 1 - n) then [] else [h[n - 1]]
  }

  lemma RankInHistory(before: seq<Change>, c: Change, after: seq<Change>, h: seq<Change>)
    requires h == (before + [c]) + after
    ensures var n := |before|; n < |h| && h[n] == c && before + [c] == h[..n + 1] && |[c] + after| == |h| - n
  {}

  lemma PrunedByRank(log: seq<Change>, w: Window, k: nat)
    requires k < |log| && Selected(log[k], w)
    ensures var row := log[k].rowId; var h, n := History(log, w, row), |History(log[..k], w, row)|;
      && n < |h| && h[n] == log[k] && History(log[..k + 1], w, row) == h[..n + 1]
      && (Pruned(log, w, k) <==> EventPruned(h[0].action, h[|h| - 1].action, n + 1, |h| - n))
  {
    var c := log[k];
    var row := c.rowId;
    var before, after, h := History(log[..k], w, row), History(log[k + 1..], w, row), History(log, w, row);
    HistoryAround(log, w, k, before, after);
    RankInHistory(before, c, after, h);
    PrunedByCounts(log, w, k, h, |before| + 1, |h| - |before|);
  }

  /** The change stands between the rest of its row's history. */
  lemma HistoryAround(log: seq<Change>, w: Window, k: nat, before: seq<Change>, after: seq<Change>)
    requires k < |log| && Selected(log[k], w)
    requires before == History(log[..k], w, log[k].rowId) && after == History(log[k + 1..], w, log[k].rowId)
    ensures var row := log[k].rowId;
      && History(log[..k + 1], w, row) == before + [log[k]] && History(log[k..], w, row) == [log[k]] + after
      && History(log, w, row) == (before + [log[k]]) + after
  {
    HistoryAt(log, w, log[k].rowId, k);
    HistoryOfOne(log[k], w, log[k].rowId);
  }

  lemma PrunedByCounts(log: seq<Change>, w: Window, k: nat, h: seq<Change>, asc: nat, desc: nat)
    requires k < |log| && Selected(log[k], w) && h == History(log, w, log[k].rowId) && h != []
    requires asc == |History(log[..k + 1], w, log[k].rowId)| && desc == |History(log[k..], w, log[k].rowId)|
    ensures Pruned(log, w, k) <==> EventPruned(h[0].action, h[|h| - 1].action, asc, desc)
  {}

  lemma CompactStep(log: seq<Change>, w: Window, row: string, k: nat, pruned: bool)
    requires k < |log| && pruned == Pruned(log, w, k)
    ensures History(CompactUpTo(log, w, k + 1), w, row) == History(CompactUpTo(log, w, k), w, row) +
      if Selected(log[k], w) && log[k].rowId == row && !pruned then [log[k]] else []
  {
    var before := CompactUpTo(log, w, k);
    HistoryConcat(before, [log[k]], w, row);
    HistoryOfOne(log[k], w, row);
    assert before + [] == before;
  }

  /** One more of the row's own events: its fate is decided by its place in the history. */
  lemma OwnStep(log: seq<Change>, w: Window, k: nat, row: string, h: seq<Change>, n: nat)
    requires k < |log| && Selected(log[k], w) && log[k].rowId == row
    requires h == History(log, w, row) && n == |History(log[..k], w, row)|
    ensures n < |h| && |History(log[..k + 1], w, row)| == n + 1 && h[n] == log[k]
    ensures Pruned(log, w, k) <==> EventPruned(h[0].action, h[|h| - 1].action, n + 1, |h| - n)
  {
    PrunedByRank(log, w, k);
  }

  lemma OwnKept(log: seq<Change>, w: Window, k: nat, row: string, h: seq<Change>, n: nat, pruned: bool)
    requires k < |log| && Selected(log[k], w) && log[k].rowId == row && n < |h| && h[n] == log[k]
    requires pruned == Pruned(log, w, k) == EventPruned(h[0].action, h[|h| - 1].action, n + 1, |h| - n)
    requires History(CompactUpTo(log, w, k), w, row) == KeptUpTo(h, n)
    ensures History(CompactUpTo(log, w, k + 1), w, row) == KeptUpTo(h, n + 1)
  {
    CompactStep(log, w, row, k, pruned);
  }

  lemma OtherStep(log: seq<Change>, w: Window, k: nat, row: string)
    requires k < |log| && !(Selected(log[k], w) && log[k].rowId == row)
    ensures History(log[..k + 1], w, row) == History(log[..k], w, row)
    ensures History(CompactUpTo(log, w, k + 1), w, row) == History(CompactUpTo(log, w, k), w, row)
  {
    HistoryAt(log, w, row, k);
    HistoryOfOne(log[k], w, row);
    CompactStep(log, w, row, k, Pruned(log, w, k));
  }

  lemma {:induction false} CompactedHistory(log: seq<Change>, w: Window, row: string, k: nat, h: seq<Change>)
    requires k <= |log| && h == History(log, w, row)
    ensures |History(log[..k], w, row)| <= |h|
    ensures History(CompactUpTo(log, w, k), w, row) == KeptUpTo(h, |History(log[..k], w, row)|)
  {
    if k == 0 {
      assert log[..0] == [];
    } else {
      CompactedHistory(log, w, row, k - 1, h);
      if Selected(log[k - 1], w) && log[k - 1].rowId == row {
        var n := |History(log[..k - 1], w, row)|;
        OwnStep(log, w, k - 1, row, h, n);
        OwnKept(log, w, k - 1, row, h, n, Pruned(log, w, k - 1));
      } else {
        OtherStep(log, w, k - 1, row);
      }
    }
  }

  /** What is kept of a whole history. */
  function Endpoints(h: seq<Change>): seq<Change> {
    if |h| <= 1 then h
    else match (h[0].action, h[|h| - 1].action)
      case (InsertImage, DeleteImage) => []
      case (InsertImage, InsertImage) => [h[|h| - 1]]
      case (DeleteImage, DeleteImage) => [h[0]]
      case (_, _) => [h[0], h[|h| - 1]]
  }

  lemma {:induction false} KeptPrefix(h: seq<Change>, n: nat)
    requires |h| > 1 && 1 <= n < |h|
    requires !h[0].action.TruncateMark? && !h[|h| - 1].action.TruncateMark?
    ensures KeptUpTo(h, n) == if h[0].action.InsertImage? then [] else [h[0]]
  {
    if n > 1 {
      KeptPrefix(h, n - 1);
    } else {
      assert KeptUpTo(h, 0) == [];
    }
  }

  lemma KeptAreEndpoints(h: seq<Change>)
    requires forall c :: c in h ==> !c.action.TruncateMark?
    ensures KeptUpTo(h, |h|) == Endpoints(h)
  {
    if h != [] {
      assert h[0] in h && h[|h| - 1] in h;
      if |h| == 1 {
        KeptAlone(h);
      } else {
        KeptPrefix(h, |h| - 1);
        KeptWhole(h, KeptUpTo(h, |h| - 1));
      }
    }
  }

  lemma KeptAlone(h: seq<Change>)
    requires |h| == 1 && !h[0].action.TruncateMark?
    ensures KeptUpTo(h, 1) == h
  {
    assert KeptUpTo(h, 0) == [];
  }

  lemma KeptWhole(h: seq<Change>, kept: seq<Change>)
    requires |h| > 1 && !h[0].action.TruncateMark? && !h[|h| - 1].action.TruncateMark?
    requires kept == KeptUpTo(h, |h| - 1) && kept == if h[0].action.InsertImage? then [] else [h[0]]
    ensures KeptUpTo(h, |h|) == Endpoints(h)
  {
    assert kept + [] == kept;
  }

  lemma {:induction false} HistoryIsSelected(log: seq<Change>, w: Window, row: string)
    ensures forall c :: c in History(log, w, row) ==> Selected(c, w) && c.rowId == row
  {
    if log != [] { HistoryIsSelected(log[..|log| - 1], w, row); }
  }

  /** The DELETE leaves exactly the endpoints of every row's history, whatever is interleaved. */
  lemma CompactKeepsEndpoints(log: seq<Change>, w: Window, row: string)
    ensures History(Compact(log, w), w, row) == Endpoints(History(log, w, row))
  {
    CompactedHistory(log, w, row, |log|, History(log, w, row));
    assert log[..|log|] == log;
    HistoryIsSelected(log, w, row);
    KeptAreEndpoints(History(log, w, row));
  }

  // -- Valid histories of one row -------------------------------------------

  /** The row's image after the events. */
  function RowAfter(before: Option<string>, h: seq<Change>): Option<string> {
    if h == [] then before
    else if h[|h| - 1].action.InsertImage? then Some(h[|h| - 1].image)
    else if h[|h| - 1].action.DeleteImage? then None
    else RowAfter(before, h[..|h| - 1])
  }

  /** An insert needs an absent row, a delete the very image that is present. */
  predicate Allowed(row: Option<string>, c: Change) {
    (c.action.InsertImage? && row.None?) || (c.action.DeleteImage? && row == Some(c.image))
  }

  predicate ValidHistory(before: Option<string>, h: seq<Change>) {
    h == [] || (ValidHistory(before, h[..|h| - 1]) && Allowed(RowAfter(before, h[..|h| - 1]), h[|h| - 1]))
  }

  /** The image in front of change i: that of the change before it, if it was an insert. */
  function Standing(before: Option<string>, h: seq<Change>, i: nat): Option<string>
    requires i <= |h|
  {
    if i == 0 then before else if h[i - 1].action == InsertImage then Some(h[i - 1].image) else None
  }

  /** An insert where no image stands, else a delete of that image. */
  predicate Alternates(before: Option<string>, h: seq<Change>, i: nat)
    requires i < |h|
  {
    match Standing(before, h, i)
    case None => h[i].action == InsertImage
    case Some(image) => h[i].action == DeleteImage && h[i].image == image
  }

  lemma {:induction false} ValidIffAlternating(before: Option<string>, h: seq<Change>)
    ensures ValidHistory(before, h) <==> forall i :: 0 <= i < |h| ==> Alternates(before, h, i)
  {
    if h != [] {
      var init, last := h[..|h| - 1], |h| - 1;
      ValidIffAlternating(before, init);
      forall i | 0 <= i < last ensures Alternates(before, init, i) <==> Alternates(before, h, i) {
        SameStanding(before, h, last, i);
        assert init[i] == h[i];
      }
      assert ValidHistory(before, h) <==> ValidHistory(before, init) && Allowed(RowAfter(before, init), h[last]);
      if ValidHistory(before, init) {
        RowStands(before, init);
        SameStanding(before, h, last, last);
        assert Allowed(RowAfter(before, init), h[last]) <==> Alternates(before, h, last);
      }
    }
  }

  lemma SameStanding(before: Option<string>, h: seq<Change>, n: nat, i: nat)
    requires i <= n <= |h|
    ensures Standing(before, h[..n], i) == Standing(before, h, i)
  {}

  lemma RowStands(before: Option<string>, h: seq<Change>)
    requires ValidHistory(before, h)
    ensures RowAfter(before, h) == Standing(before, h, |h|)
  {}

  lemma {:induction false} FirstIsAllowed(before: Option<string>, h: seq<Change>)
    requires h != [] && ValidHistory(before, h)
    ensures Allowed(before, h[0])
  {
    if |h| > 1 { FirstIsAllowed(before, h[..|h| - 1]); }
  }

  /** After a valid event the row is absent or holds its image. */
  lemma LastIsAllowed(before: Option<string>, h: seq<Change>)
    requires |h| > 1 && ValidHistory(before, h)
    ensures var last := h[|h| - 1];
      && !last.action.TruncateMark? && !h[0].action.TruncateMark?
      && RowAfter(before, h) == if last.action.InsertImage? then Some(last.image) else None
  {
    FirstIsAllowed(before, h);
  }

  lemma OneEvent(before: Option<string>, c: Change)
    ensures ValidHistory(before, [c]) <==> Allowed(before, c)
    ensures !c.action.TruncateMark? ==> RowAfter(before, [c]) == if c.action.InsertImage? then Some(c.image) else None
  {
    assert [c][..0] == [];
  }

  lemma TwoEvents(before: Option<string>, c: Change, d: Change)
    requires Allowed(before, c)
    ensures ValidHistory(before, [c, d]) <==> Allowed(RowAfter(before, [c]), d)
    ensures !d.action.TruncateMark? ==> RowAfter(before, [c, d]) == if d.action.InsertImage? then Some(d.image) else None
  {
    assert [c, d][..1] == [c];
    OneEvent(before, c);
  }

  /** The endpoints are themselves a valid history between the same two images. */
  lemma EndpointsAreValid(before: Option<string>, h: seq<Change>)
    requires ValidHistory(before, h)
    ensures ValidHistory(before, Endpoints(h)) && RowAfter(before, Endpoints(h)) == RowAfter(before, h)
  {
    if |h| > 1 {
      FirstIsAllowed(before, h);
      var first, last := h[0], h[|h| - 1];
      OneEvent(before, first);
      OneEvent(before, last);
      TwoEvents(before, first, last);
      LastIsAllowed(before, h);
    }
  }

  function Weight(h: seq<Change>, image: string): int {
    if h == [] then 0
    else Weight(h[..|h| - 1], image) + if h[|h| - 1].image == image then EventWeight(h[|h| - 1].action) else 0
  }

  function Holds(row: Option<string>, image: string): int {
    if row == Some(image) then 1 else 0
  }

  /** The signed sum of an image is its presence at the end less its presence at the start. */
  lemma {:induction false} WeightIsDifference(before: Option<string>, h: seq<Change>, image: string)
    requires ValidHistory(before, h)
    ensures Weight(h, image) == Holds(RowAfter(before, h), image) - Holds(before, image)
  {
    if h != [] { WeightIsDifference(before, h[..|h| - 1], image); }
  }

  // -- What a consumer sees -------------------------------------------------

  /** Signed multiplicity of one complete image of one row in a window. */
  function BucketDelta(log: seq<Change>, w: Window, row: string, image: string): int {
    if log == [] then 0
    else
      var c := log[|log| - 1];
      BucketDelta(log[..|log| - 1], w, row, image)
      + if c.rowId == row && InWindow(c.lsn, w) && c.image == image then EventWeight(c.action) else 0
  }

  lemma {:induction false} BucketOfHistory(log: seq<Change>, w: Window, row: string, image: string)
    ensures BucketDelta(log, w, row, image) == Weight(History(log, w, row), image)
  {
    if log != [] {
      var c, init := log[|log| - 1], log[..|log| - 1];
      BucketOfHistory(init, w, row, image);
      assert History(init, w, row) + [] == History(init, w, row);
      if Selected(c, w) && c.rowId == row {
        var h := History(log, w, row);
        assert h[..|h| - 1] == History(init, w, row);
      }
    }
  }

  /** Every row's window history is valid from the image the consumer's table holds. */
  ghost predicate ValidLog(table: map<string, string>, log: seq<Change>, w: Window) {
    forall row :: ValidHistory(Lookup(table, row), History(log, w, row))
  }

  function Lookup(table: map<string, string>, row: string): Option<string> {
    if row in table then Some(table[row]) else None
  }

  /** Compaction changes no image's signed sum, for any row, in any interleaving. */
  lemma CompactionPreservesBuckets(table: map<string, string>, log: seq<Change>, w: Window, row: string, image: string)
    requires ValidLog(table, log, w)
    ensures BucketDelta(Compact(log, w), w, row, image) == BucketDelta(log, w, row, image)
  {
    var before, h := Lookup(table, row), History(log, w, row);
    BucketOfHistory(log, w, row, image);
    BucketOfHistory(Compact(log, w), w, row, image);
    CompactKeepsEndpoints(log, w, row);
    EndpointsAreValid(before, h);
    WeightIsDifference(before, h, image);
    WeightIsDifference(before, Endpoints(h), image);
  }

  lemma CompactionKeepsLogValid(table: map<string, string>, log: seq<Change>, w: Window)
    requires ValidLog(table, log, w)
    ensures ValidLog(table, Compact(log, w), w)
  {
    forall row ensures ValidHistory(Lookup(table, row), History(Compact(log, w), w, row)) {
      CompactKeepsEndpoints(log, w, row);
      EndpointsAreValid(Lookup(table, row), History(log, w, row));
    }
  }

  /** Applying the window's changes to a table, in order. */
  function Replay(table: map<string, string>, log: seq<Change>, w: Window): map<string, string> {
    if log == [] then table
    else
      var c := log[|log| - 1];
      var t := Replay(table, log[..|log| - 1], w);
      if InWindow(c.lsn, w) then Applied(t, c) else t
  }

  function Applied(table: map<string, string>, c: Change): map<string, string> {
    match c.action
    case InsertImage => table[c.rowId := c.image]
    case DeleteImage => table - {c.rowId}
    case TruncateMark => map[]
  }

  lemma AppliedToRow(table: map<string, string>, c: Change, row: string, before: Option<string>, h: seq<Change>)
    requires !c.action.TruncateMark? && Lookup(table, row) == RowAfter(before, h)
    ensures Lookup(Applied(table, c), row) == RowAfter(before, if c.rowId == row then h + [c] else h)
  {
    assert (h + [c])[|h|] == c;
  }

  predicate NoBarrier(log: seq<Change>, w: Window) {
    forall c :: c in log ==> !(c.action.TruncateMark? && InWindow(c.lsn, w))
  }

  lemma {:induction false} ReplayRowByRow(table: map<string, string>, log: seq<Change>, w: Window, row: string)
    requires NoBarrier(log, w)
    ensures Lookup(Replay(table, log, w), row) == RowAfter(Lookup(table, row), History(log, w, row))
  {
    if log != [] {
      var c, init := log[|log| - 1], log[..|log| - 1];
      assert c in log;
      ReplayRowByRow(table, init, w, row);
      if InWindow(c.lsn, w) {
        AppliedToRow(Replay(table, init, w), c, row, Lookup(table, row), History(init, w, row));
      }
      assert History(init, w, row) + [] == History(init, w, row);
    }
  }

  lemma {:induction false} CompactHoldsOnlyOld(log: seq<Change>, w: Window, k: nat)
    requires k <= |log|
    ensures forall c :: c in CompactUpTo(log, w, k) ==> c in log
  {
    if k > 0 { CompactHoldsOnlyOld(log, w, k - 1); }
  }

  /** A consumer that replays the compacted window reaches the same table. */
  lemma CompactionPreservesReplay(table: map<string, string>, log: seq<Change>, w: Window)
    requires ValidLog(table, log, w) && NoBarrier(log, w)
    ensures Replay(table, Compact(log, w), w) == Replay(table, log, w)
  {
    var a, b := Replay(table, Compact(log, w), w), Replay(table, log, w);
    CompactHoldsOnlyOld(log, w, |log|);
    forall row ensures Lookup(a, row) == Lookup(b, row) {
      ReplayRowByRow(table, log, w, row);
      ReplayRowByRow(table, Compact(log, w), w, row);
      CompactKeepsEndpoints(log, w, row);
      EndpointsAreValid(Lookup(table, row), History(log, w, row));
    }
    assert forall row :: (row in a <==> row in b) && (row in a ==> a[row] == b[row]) by {
      forall row ensures (row in a <==> row in b) && (row in a ==> a[row] == b[row]) {
        assert Lookup(a, row) == Lookup(b, row);
      }
    }
  }

  /** The gated maintenance step of a buffer. */
  function CompactBuffer(log: seq<Change>, w: Window, uniqueIdentity: bool, singleConsumer: bool): seq<Change> {
    if CanCompactHistory(uniqueIdentity, singleConsumer, !NoBarrier(log, w)) then Compact(log, w) else log
  }

  /** With a unique identity, the step is invisible to the consumer of the window. */
  lemma CompactBufferIsInvisible(table: map<string, string>, log: seq<Change>, w: Window, unique: bool, single: bool)
    requires unique ==> ValidLog(table, log, w)
    ensures Replay(table, CompactBuffer(log, w, unique, single), w) == Replay(table, log, w)
    ensures forall row, image ::
      BucketDelta(CompactBuffer(log, w, unique, single), w, row, image) == BucketDelta(log, w, row, image)
  {
    if CanCompactHistory(unique, single, !NoBarrier(log, w)) {
      CompactionPreservesReplay(table, log, w);
      forall row, image
        ensures BucketDelta(Compact(log, w), w, row, image) == BucketDelta(log, w, row, image)
      {
        CompactionPreservesBuckets(table, log, w, row, image);
      }
    }
  }

  /** The step compacts exactly with a unique identity, a single consumer and no truncate mark in the window. */
  lemma WhenCompacted(log: seq<Change>, w: Window, unique: bool, single: bool)
    ensures !unique || !single ==> CompactBuffer(log, w, unique, single) == log
    ensures (exists c :: c in log && c.action.TruncateMark? && w.previous < c.lsn <= w.upto) ==>
      CompactBuffer(log, w, unique, single) == log
    ensures unique && single && (forall c :: c in log && w.previous < c.lsn <= w.upto ==> !c.action.TruncateMark?) ==>
      CompactBuffer(log, w, unique, single) == Compact(log, w)
  {}

  /** A row's history holds its inserts and deletes behind the last consumed position, up to and including the new one. */
  lemma {:induction false} HistoryHolds(log: seq<Change>, w: Window, row: string, c: Change)
    ensures c in History(log, w, row) <==>
      c in log && c.rowId == row && w.previous < c.lsn <= w.upto && (c.action == InsertImage || c.action == DeleteImage)
  {
    if log != [] {
      HistoryHolds(log[..|log| - 1], w, row, c);
      assert log == log[..|log| - 1] + [log[|log| - 1]];
    }
  }

  /** Inside the window and outside it: only inserts and deletes of the window can go. */
  lemma {:induction false} OnlyWindowIsCompacted(log: seq<Change>, w: Window, k: nat, c: Change)
    requires k <= |log| && c in log[..k]
    requires c.lsn <= w.previous || c.lsn > w.upto || c.action == TruncateMark
    ensures c in CompactUpTo(log, w, k)
  {
    if c in log[..k - 1] {
      OnlyWindowIsCompacted(log, w, k - 1, c);
    } else {
      assert log[..k] == log[..k - 1] + [log[k - 1]];
    }
  }

  // -- Further laws of compaction -------------------------------------------

  lemma {:induction false} NothingPruned(log: seq<Change>, w: Window, k: nat)
    requires k <= |log| && forall i :: 0 <= i < k ==> !Pruned(log, w, i)
    ensures CompactUpTo(log, w, k) == log[..k]
  {
    if k > 0 { NothingPruned(log, w, k - 1); }
  }

  /** Compacting again deletes nothing, valid history or not. */
  lemma EndpointsStay(h: seq<Change>, n: nat)
    requires (forall c :: c in h ==> !c.action.TruncateMark?) && n < |Endpoints(h)|
    ensures var e := Endpoints(h); !EventPruned(e[0].action, e[|e| - 1].action, n + 1, |e| - n)
  {
    assert h[0] in h && h[|h| - 1] in h;
  }

  lemma CompactIsIdempotent(log: seq<Change>, w: Window)
    ensures Compact(Compact(log, w), w) == Compact(log, w)
  {
    var once := Compact(log, w);
    forall i | 0 <= i < |once| ensures !Pruned(once, w, i) {
      if Selected(once[i], w) {
        var row := once[i].rowId;
        CompactKeepsEndpoints(log, w, row);
        HistoryIsSelected(log, w, row);
        PrunedByRank(once, w, i);
        EndpointsStay(History(log, w, row), |History(once[..i], w, row)|);
      }
    }
    NothingPruned(once, w, |once|);
  }

  /** At most two events per row survive in the window. */
  lemma CompactIsSmall(log: seq<Change>, w: Window, row: string)
    ensures |History(Compact(log, w), w, row)| <= 2
  {
    CompactKeepsEndpoints(log, w, row);
  }

  /** Changes outside the window, and truncate marks. */
  function Unselected(log: seq<Change>, w: Window): seq<Change> {
    if log == [] then []
    else Unselected(log[..|log| - 1], w) + if Selected(log[|log| - 1], w) then [] else [log[|log| - 1]]
  }

  lemma {:induction false} CompactLeavesTheRest(log: seq<Change>, w: Window, k: nat)
    requires k <= |log|
    ensures Unselected(CompactUpTo(log, w, k), w) == Unselected(log[..k], w)
  {
    if k > 0 {
      CompactLeavesTheRest(log, w, k - 1);
      assert log[..k][..k - 1] == log[..k - 1];
      UnselectedAppend(CompactUpTo(log, w, k - 1), log[k - 1], w);
    }
  }

  lemma UnselectedAppend(log: seq<Change>, c: Change, w: Window)
    ensures Unselected(log + [c], w) == Unselected(log, w) + if Selected(c, w) then [] else [c]
    ensures log + [] == log
  {
    assert (log + [c])[..|log|] == log;
  }

  /** Two windows that meet at a cut add up to the whole window. */
  lemma {:induction false} BucketsSplitAtCut(log: seq<Change>, a: int, mid: int, b: int, row: string, image: string)
    requires a <= mid <= b
    ensures BucketDelta(log, Window(a, b), row, image) ==
            BucketDelta(log, Window(a, mid), row, image) + BucketDelta(log, Window(mid, b), row, image)
  {
    if log != [] { BucketsSplitAtCut(log[..|log| - 1], a, mid, b, row, image); }
  }

  // -- Why a second consumer forbids compaction -----------------------------

  predicate Within(v: Window, w: Window) {
    w.previous <= v.previous && v.upto <= w.upto
  }

  /** A row without changes in a window counts nothing in any window inside it. */
  lemma {:induction false} NothingInside(log: seq<Change>, w: Window, v: Window, row: string, image: string)
    requires Within(v, w) && History(log, w, row) == []
    ensures BucketDelta(log, v, row, image) == 0
  {
    if log == [] {
      assert BucketDelta(log, v, row, image) == 0;
    } else {
      var c, init := log[|log| - 1], log[..|log| - 1];
      assert !(Selected(c, w) && c.rowId == row) && History(init, w, row) == [] by {
        assert |History(log, w, row)| == |History(init, w, row)| + if Selected(c, w) && c.rowId == row then 1 else 0;
      }
      NothingInside(init, w, v, row, image);
    }
  }

  /** A row whose window begins with its insert and ends with its delete. */
  predicate ComesAndGoes(log: seq<Change>, w: Window, row: string) {
    var h := History(log, w, row);
    |h| > 1 && h[0].action.InsertImage? && h[|h| - 1].action.DeleteImage?
  }

  /** Compaction takes every trace of such a row from every window inside. */
  lemma NoTraceIsLeft(log: seq<Change>, w: Window, v: Window, row: string, image: string)
    requires ComesAndGoes(log, w, row) && Within(v, w)
    ensures BucketDelta(Compact(log, w), v, row, image) == 0
  {
    CompactKeepsEndpoints(log, w, row);
    NothingInside(Compact(log, w), w, v, row, image);
  }

  /**
   In any buffer, for any row that comes and goes within the compacted window: a
   second consumer that stops early, where the row holds an image, should count that
   image once and counts it not at all.
   */
  lemma SecondConsumerWouldMissAnImage(table: map<string, string>, log: seq<Change>, w: Window, v: Window,
                                       row: string, image: string)
    requires ComesAndGoes(log, w, row) && Within(v, w) && row !in table
    requires ValidHistory(None, History(log, v, row)) && RowAfter(None, History(log, v, row)) == Some(image)
    ensures NoBarrier(log, v) ==> Lookup(Replay(table, log, v), row) == Some(image)
    ensures BucketDelta(log, v, row, image) == 1
    ensures BucketDelta(Compact(log, w), v, row, image) == 0
  {
    if NoBarrier(log, v) { ReplayRowByRow(table, log, v, row); }
    BucketOfHistory(log, v, row, image);
    WeightIsDifference(None, History(log, v, row), image);
    NoTraceIsLeft(log, w, v, row, image);
  }
}
