// Non-maximum suppression (RemoveOverlappingBoxes) in its three generations.
// Each sorts the predictions in place by descending confidence, then walks
// them once and keeps an item unless it overlaps, by more than the IoU
// threshold, an item kept before it. `Keep` is that greedy filter as a
// function; the three methods are proved to compute it, and its properties
// are proved once, for any overlap test.

module Nms {
  import opened Geometry
  import opened Models
  import opened Sorting

  /** `x` overlaps one of the already kept items (the LINQ `Any` of the Data and Base versions). */
  predicate AnyOverlap<T>(x: T, kept: seq<T>, over: (T, T) -> bool)
  {
    exists j :: 0 <= j < |kept| && over(x, kept[j])
  }

  /** The greedy filter: the items of `s`, in order, that overlap no item kept before them. */
  function Keep<T>(s: seq<T>, over: (T, T) -> bool): (r: seq<T>)
    ensures |r| <= |s|
    ensures forall i :: 0 <= i < |r| ==> r[i] in s
  {
    if |s| == 0 then []
    else
      var kept := Keep(s[..|s| - 1], over);
      if AnyOverlap(s[|s| - 1], kept, over) then kept else kept + [s[|s| - 1]]
  }

  /** The positions in `s` of the items `Keep` retains. */
  ghost function KeptIndices<T>(s: seq<T>, over: (T, T) -> bool): (r: seq<int>)
    ensures |r| == |Keep(s, over)|
  {
    if |s| == 0 then []
    else
      var idx := KeptIndices(s[..|s| - 1], over);
      if AnyOverlap(s[|s| - 1], Keep(s[..|s| - 1], over), over) then idx else idx + [|s| - 1]
  }

  /** The kept items are a subsequence of the input: increasing positions, same items. */
  lemma {:induction false} KeepIsSubsequence<T>(s: seq<T>, over: (T, T) -> bool)
    ensures forall k :: 0 <= k < |KeptIndices(s, over)| ==>
              0 <= KeptIndices(s, over)[k] < |s| && Keep(s, over)[k] == s[KeptIndices(s, over)[k]]
    ensures forall k, l :: 0 <= k < l < |KeptIndices(s, over)| ==> KeptIndices(s, over)[k] < KeptIndices(s, over)[l]
  {
    if |s| > 0 {
      KeepIsSubsequence(s[..|s| - 1], over);
    }
  }

  /**
   * An item is kept exactly when no item kept before it overlaps it: the
   * two directions are "no two kept items overlap" and "every dropped item
   * overlaps an earlier kept one".
   */
  lemma {:induction false} KeepDecision<T>(s: seq<T>, over: (T, T) -> bool, i: int)
    requires 0 <= i < |s|
    ensures i in KeptIndices(s, over) <==>
              !exists k :: 0 <= k < |Keep(s, over)| && KeptIndices(s, over)[k] < i && over(s[i], Keep(s, over)[k])
    decreases |s|, 1
  {
    if i < |s| - 1 {
      KeepDecisionEarlier(s, over, i);
    } else {
      KeepDecisionLast(s, over);
    }
  }

  /** An item before the last is decided as it was without the last item, which comes after it. */
  lemma {:induction false} KeepDecisionEarlier<T>(s: seq<T>, over: (T, T) -> bool, i: int)
    requires 0 <= i < |s| - 1
    ensures i in KeptIndices(s, over) <==>
              !exists k :: 0 <= k < |Keep(s, over)| && KeptIndices(s, over)[k] < i && over(s[i], Keep(s, over)[k])
    decreases |s|, 0
  {
    var n := |s|;
    var s' := s[..n - 1];
    var idx, idx' := KeptIndices(s, over), KeptIndices(s', over);
    var kept, kept' := Keep(s, over), Keep(s', over);
    KeepIsSubsequence(s', over);
    assert idx[..|idx'|] == idx' && kept[..|kept'|] == kept';
    KeepDecision(s', over, i);
    assert s'[i] == s[i];
    assert i in idx <==> i in idx';
    if |idx| > |idx'| {
      assert idx[|idx'|] == n - 1;
    }
  }

  /** The last item is kept exactly when no kept item overlaps it. */
  lemma {:induction false} KeepDecisionLast<T>(s: seq<T>, over: (T, T) -> bool)
    requires |s| > 0
    ensures var i := |s| - 1;
              i in KeptIndices(s, over) <==>
                !exists k :: 0 <= k < |Keep(s, over)| && KeptIndices(s, over)[k] < i && over(s[i], Keep(s, over)[k])
  {
    var n := |s|;
    var s' := s[..n - 1];
    var idx, idx' := KeptIndices(s, over), KeptIndices(s', over);
    var kept, kept' := Keep(s, over), Keep(s', over);
    KeepIsSubsequence(s', over);
    assert idx[..|idx'|] == idx' && kept[..|kept'|] == kept';
    assert n - 1 !in idx';
    if AnyOverlap(s[n - 1], kept', over) {
      var j :| 0 <= j < |kept'| && over(s[n - 1], kept'[j]);
      assert idx[j] < n - 1 && kept[j] == kept'[j];
    }
  }

  /** No item kept later overlaps an item kept earlier. */
  lemma KeepPairwise<T>(s: seq<T>, over: (T, T) -> bool)
    ensures forall k, l :: 0 <= k < l < |Keep(s, over)| ==> !over(Keep(s, over)[l], Keep(s, over)[k])
  {
    var idx, kept := KeptIndices(s, over), Keep(s, over);
    KeepIsSubsequence(s, over);
    forall k, l | 0 <= k < l < |kept|
      ensures !over(kept[l], kept[k])
    {
      KeepDecision(s, over, idx[l]);
      assert idx[l] in idx;
    }
  }

  /** Every dropped item overlaps an item kept before it. */
  lemma KeepDropped<T>(s: seq<T>, over: (T, T) -> bool, i: int)
    requires 0 <= i < |s| && i !in KeptIndices(s, over)
    ensures exists k :: 0 <= k < |Keep(s, over)| && KeptIndices(s, over)[k] < i && over(s[i], Keep(s, over)[k])
  {
    KeepDecision(s, over, i);
  }

  /** The first item (the highest confidence, once sorted) is always kept. */
  lemma {:induction false} KeepFirst<T>(s: seq<T>, over: (T, T) -> bool)
    requires |s| > 0
    ensures |Keep(s, over)| > 0 && Keep(s, over)[0] == s[0]
  {
    if |s| > 1 {
      KeepFirst(s[..|s| - 1], over);
    }
  }

  /** Filtering a confidence-sorted input keeps it sorted, and never lengthens it. */
  lemma KeepSorted<T>(s: seq<T>, over: (T, T) -> bool, conf: T -> real)
    requires SortedDesc(s, conf)
    ensures SortedDesc(Keep(s, over), conf)
    ensures |Keep(s, over)| <= |s|
  {
    var idx, kept := KeptIndices(s, over), Keep(s, over);
    KeepIsSubsequence(s, over);
    forall k, l | 0 <= k < l < |kept|
      ensures conf(kept[k]) >= conf(kept[l])
    {
      assert idx[k] < idx[l];
    }
    KeepLength(s, over);
  }

  lemma {:induction false} KeepLength<T>(s: seq<T>, over: (T, T) -> bool)
    ensures |Keep(s, over)| <= |s|
  {
    if |s| > 0 {
      KeepLength(s[..|s| - 1], over);
    }
  }

  /** An overlap test that never fires keeps everything. */
  lemma {:induction false} KeepAll<T>(s: seq<T>, over: (T, T) -> bool)
    requires forall i, j :: 0 <= i < |s| && 0 <= j < |s| ==> !over(s[i], s[j])
    ensures Keep(s, over) == s
  {
    if |s| > 0 {
      var s' := s[..|s| - 1];
      KeepAll(s', over);
      assert !AnyOverlap(s[|s| - 1], s', over);
    }
  }

  // ---------------------------------------------------------------------------
  // The three generations
  // ---------------------------------------------------------------------------

  /** The overlap test of Core/YoloCore: `CalculateIoU(item, kept) > iouThreshold`. */
  function OverlapCore(iouThreshold: real): (ObjectResult, ObjectResult) -> bool
  {
    (item: ObjectResult, kept: ObjectResult) => Exceeds(IoUCore(item.box, kept.box), iouThreshold)
  }

  /** The overlap test of Data/YoloCore, whose IoU has no strict-overlap guard. */
  function OverlapData(iouThreshold: real): (ObjectResult, ObjectResult) -> bool
  {
    (item: ObjectResult, kept: ObjectResult) => Exceeds(IoUData(item.box, kept.box), iouThreshold)
  }

  /** The overlap test of Data/YoloBase on RectangleF boxes. */
  function OverlapBase(iouThreshold: real): (LegacyResult, LegacyResult) -> bool
  {
    (item: LegacyResult, kept: LegacyResult) => Exceeds(IoUBase(item.box, kept.box), iouThreshold)
  }

  /**
   * Core/YoloCore.RemoveOverlappingBoxes: sorts the span in place, then fills
   * a buffer under a counter; the inner scan stops at the first overlap.
   */
  method RemoveOverlappingBoxesCore(predictions: array<ObjectResult>, iouThreshold: real)
    returns (r: array<ObjectResult>)
    modifies predictions
    ensures predictions.Length == 0 ==> r.Length == 0 && predictions[..] == old(predictions[..])
    ensures multiset(predictions[..]) == multiset(old(predictions[..]))
    ensures SortedDesc(predictions[..], Confidence)
    ensures fresh(r) && r[..] == Keep(predictions[..], OverlapCore(iouThreshold))
  {
    var n := predictions.Length;
    if n == 0 {
      return new ObjectResult[0];
    }
    SortDescending(predictions, Confidence);
    var first := predictions[0];
    var buffer := new ObjectResult[n](_ => first);
    var counter := FillKept(predictions, buffer, iouThreshold);
    r := new ObjectResult[counter](k requires 0 <= k < counter reads buffer => buffer[k]);
  }

  /** The outer walk of the Core generation: copies each item no kept box overlaps into the buffer. */
  method FillKept(predictions: array<ObjectResult>, buffer: array<ObjectResult>, iouThreshold: real)
    returns (counter: nat)
    requires buffer != predictions && buffer.Length == predictions.Length
    modifies buffer
    ensures counter <= buffer.Length && buffer[..counter] == Keep(predictions[..], OverlapCore(iouThreshold))
  {
    var n := predictions.Length;
    var over := OverlapCore(iouThreshold);
    counter := 0;
    ghost var sorted := predictions[..];
    for i := 0 to n
      invariant counter <= i
      invariant buffer[..counter] == Keep(sorted[..i], over)
    {
      var item := predictions[i];
      var overlapFound := OverlapsKept(item, buffer, counter, iouThreshold);
      assert sorted[..i + 1][..i] == sorted[..i];
      if !overlapFound {
        buffer[counter] := item;
        counter := counter + 1;
      }
    }
    assert sorted[..n] == sorted;
  }

  /** The inner scan of the Core generation: stops at the first kept box the item overlaps. */
  method OverlapsKept(item: ObjectResult, buffer: array<ObjectResult>, counter: int, iouThreshold: real)
    returns (overlapFound: bool)
    requires 0 <= counter <= buffer.Length
    ensures overlapFound <==> AnyOverlap(item, buffer[..counter], OverlapCore(iouThreshold))
  {
    overlapFound := false;
    var j := 0;
    while j < counter
      invariant 0 <= j <= counter
      invariant forall k :: 0 <= k < j ==> !OverlapCore(iouThreshold)(item, buffer[k])
    {
      if Exceeds(IoUCore(item.box, buffer[j].box), iouThreshold) {
        overlapFound := true;
        assert OverlapCore(iouThreshold)(item, buffer[..counter][j]);
        return;
      }
      j := j + 1;
    }
  }

  /**
   * Data/YoloCore.RemoveOverlappingBoxes: sorts the array in place, then adds
   * to a set every item no element of the set overlaps. The HashSet is a
   * sequence here, in the order the items are added: a HashSet that is never
   * removed from enumerates in that order in the current .NET
   * implementation, though the documentation does not promise it. The set
   * compares results by reference, so the same object twice in the array is
   * kept once; the sequence would keep it twice, unless it suppresses itself.
   */
  method RemoveOverlappingBoxesData(predictions: array<ObjectResult>, iouThreshold: real)
    returns (r: array<ObjectResult>)
    modifies predictions
    ensures multiset(predictions[..]) == multiset(old(predictions[..]))
    ensures SortedDesc(predictions[..], Confidence)
    ensures fresh(r) && r[..] == Keep(predictions[..], OverlapData(iouThreshold))
  {
    SortDescending(predictions, Confidence);
    var over := OverlapData(iouThreshold);
    var result: seq<ObjectResult> := [];
    for i := 0 to predictions.Length
      invariant result == Keep(predictions[..i], over)
    {
      var item := predictions[i];
      assert predictions[..i + 1][..i] == predictions[..i];
      if !AnyOverlap(item, result, over) {
        result := result + [item];
      }
    }
    assert predictions[..predictions.Length] == predictions[..];
    r := new ObjectResult[|result|](k requires 0 <= k < |result| => result[k]);
  }

  /**
   * Data/YoloBase.RemoveOverlappingBoxes: sorts the list in place, then
   * appends to a new list every item no element of it overlaps.
   */
  method RemoveOverlappingBoxesBase(predictions: array<LegacyResult>, iouThreshold: real)
    returns (result: seq<LegacyResult>)
    modifies predictions
    ensures multiset(predictions[..]) == multiset(old(predictions[..]))
    ensures SortedDesc(predictions[..], LegacyConfidence)
    ensures result == Keep(predictions[..], OverlapBase(iouThreshold))
  {
    SortDescending(predictions, LegacyConfidence);
    var over := OverlapBase(iouThreshold);
    result := [];
    for i := 0 to predictions.Length
      invariant result == Keep(predictions[..i], over)
    {
      var item := predictions[i];
      assert predictions[..i + 1][..i] == predictions[..i];
      if !AnyOverlap(item, result, over) {
        result := result + [item];
      }
    }
    assert predictions[..predictions.Length] == predictions[..];
  }

  /** In the Core generation no two kept boxes overlap, in either order, by more than the threshold. */
  lemma CoreKeptDisjoint(s: seq<ObjectResult>, iouThreshold: real)
    ensures forall k, l :: 0 <= k < |Keep(s, OverlapCore(iouThreshold))| && 0 <= l < |Keep(s, OverlapCore(iouThreshold))| && k != l ==>
              !Exceeds(IoUCore(Keep(s, OverlapCore(iouThreshold))[k].box, Keep(s, OverlapCore(iouThreshold))[l].box), iouThreshold)
  {
    var kept := Keep(s, OverlapCore(iouThreshold));
    KeepPairwise(s, OverlapCore(iouThreshold));
    forall k, l | 0 <= k < |kept| && 0 <= l < |kept| && k != l
      ensures !Exceeds(IoUCore(kept[k].box, kept[l].box), iouThreshold)
    {
      IoUCoreSymmetric(kept[k].box, kept[l].box);
    }
  }

  /** The same for the Data generation. */
  lemma DataKeptDisjoint(s: seq<ObjectResult>, iouThreshold: real)
    ensures forall k, l :: 0 <= k < |Keep(s, OverlapData(iouThreshold))| && 0 <= l < |Keep(s, OverlapData(iouThreshold))| && k != l ==>
              !Exceeds(IoUData(Keep(s, OverlapData(iouThreshold))[k].box, Keep(s, OverlapData(iouThreshold))[l].box), iouThreshold)
  {
    var kept := Keep(s, OverlapData(iouThreshold));
    KeepPairwise(s, OverlapData(iouThreshold));
    forall k, l | 0 <= k < |kept| && 0 <= l < |kept| && k != l
      ensures !Exceeds(IoUData(kept[k].box, kept[l].box), iouThreshold)
    {
      IoUDataSymmetric(kept[k].box, kept[l].box);
    }
  }

  /** The same for the YoloBase generation. */
  lemma BaseKeptDisjoint(s: seq<LegacyResult>, iouThreshold: real)
    ensures forall k, l :: 0 <= k < |Keep(s, OverlapBase(iouThreshold))| && 0 <= l < |Keep(s, OverlapBase(iouThreshold))| && k != l ==>
              !Exceeds(IoUBase(Keep(s, OverlapBase(iouThreshold))[k].box, Keep(s, OverlapBase(iouThreshold))[l].box), iouThreshold)
  {
    var kept := Keep(s, OverlapBase(iouThreshold));
    KeepPairwise(s, OverlapBase(iouThreshold));
    forall k, l | 0 <= k < |kept| && 0 <= l < |kept| && k != l
      ensures !Exceeds(IoUBase(kept[k].box, kept[l].box), iouThreshold)
    {
      IoUBaseSymmetric(kept[k].box, kept[l].box);
    }
  }

  /**
   * With a threshold of 1 or more nothing is suppressed, as long as every box
   * has a positive area (an IoU never exceeds 1).
   */
  lemma CoreThresholdOneKeepsAll(s: seq<ObjectResult>, iouThreshold: real)
    requires iouThreshold >= 1.0
    requires forall i :: 0 <= i < |s| ==> s[i].box.Width() > 0 && s[i].box.Height() > 0
    ensures Keep(s, OverlapCore(iouThreshold)) == s
  {
    forall i, j | 0 <= i < |s| && 0 <= j < |s|
      ensures !OverlapCore(iouThreshold)(s[i], s[j])
    {
      IoUCoreUnitRange(s[i].box, s[j].box);
      UnitRangeThreshold(IoUCore(s[i].box, s[j].box), iouThreshold);
    }
    KeepAll(s, OverlapCore(iouThreshold));
  }

  /**
   * The hand-off at the end of the NMS decoders: the valid part of the
   * buffer is sorted in place and filtered by the Core generation. The
   * result is the greedy filter over some confidence order of the rows.
   */
  method SuppressFound(found: seq<ObjectResult>, iouThreshold: real) returns (r: seq<ObjectResult>, ghost sorted: seq<ObjectResult>)
    ensures multiset(sorted) == multiset(found) && SortedDesc(sorted, Confidence)
    ensures r == Keep(sorted, OverlapCore(iouThreshold))
  {
    var a := new ObjectResult[|found|](k requires 0 <= k < |found| => found[k]);
    assert a[..] == found;
    var kept := RemoveOverlappingBoxesCore(a, iouThreshold);
    sorted := a[..];
    r := kept[..];
  }

  /** The hand-off of the legacy decoders, through the Data generation's filter. */
  method SuppressFoundData(found: seq<ObjectResult>, iouThreshold: real) returns (r: seq<ObjectResult>, ghost sorted: seq<ObjectResult>)
    ensures multiset(sorted) == multiset(found) && SortedDesc(sorted, Confidence)
    ensures r == Keep(sorted, OverlapData(iouThreshold))
  {
    var a := new ObjectResult[|found|](k requires 0 <= k < |found| => found[k]);
    assert a[..] == found;
    var kept := RemoveOverlappingBoxesData(a, iouThreshold);
    sorted := a[..];
    r := kept[..];
  }

  /**
   * What a hand-off guarantees of its result, whatever the overlap test:
   * every box is one of the decoded rows, in confidence order, there are no
   * more than there were rows, no box overlaps one kept before it, and the
   * most confident row survives.
   */
  lemma Suppressed(found: seq<ObjectResult>, sorted: seq<ObjectResult>, over: (ObjectResult, ObjectResult) -> bool)
    requires multiset(sorted) == multiset(found) && SortedDesc(sorted, Confidence)
    ensures var kept := Keep(sorted, over);
              |kept| <= |found| && SortedDesc(kept, Confidence) &&
              (forall k :: 0 <= k < |kept| ==> kept[k] in found) &&
              (forall k, l :: 0 <= k < l < |kept| ==> !over(kept[l], kept[k]))
    ensures var kept := Keep(sorted, over);
              |found| > 0 ==> |kept| > 0 && forall j :: 0 <= j < |found| ==> found[j].confidence <= kept[0].confidence
  {
    var kept := Keep(sorted, over);
    assert |sorted| == |found| by {
      assert |multiset(sorted)| == |multiset(found)|;
    }
    KeepSorted(sorted, over, Confidence);
    KeepIsSubsequence(sorted, over);
    KeepPairwise(sorted, over);
    forall k | 0 <= k < |kept|
      ensures kept[k] in found
    {
      var j := KeptIndices(sorted, over)[k];
      assert sorted[j] in multiset(sorted);
    }
    if |found| > 0 {
      KeepFirst(sorted, over);
      forall j | 0 <= j < |found|
        ensures found[j].confidence <= kept[0].confidence
      {
        assert found[j] in multiset(sorted);
        var m :| 0 <= m < |sorted| && sorted[m] == found[j];
      }
    }
  }
}
