// The ordering NMS sorts by: ConfidenceComparer (Handlers/ and Utils/ hold
// identical copies) and the inline comparison of the Data generation.

module ConfidenceComparer {
  import opened Common
  import opened Models
  import opened Sorting

  /**
   * ConfidenceComparer.Compare: a negative result puts x first. Higher
   * confidence sorts first and a null argument sorts last; two nulls compare
   * as 1, not 0.
   */
  function Compare(x: Option<ObjectResult>, y: Option<ObjectResult>): (r: int)
    ensures -1 <= r <= 1
    ensures x.None? ==> r == 1
    ensures x.Some? && y.None? ==> r == -1
    ensures x.Some? && y.Some? ==>
              (r == -1 <==> x.value.confidence > y.value.confidence) &&
              (r == 1 <==> x.value.confidence < y.value.confidence) &&
              (r == 0 <==> x.value.confidence == y.value.confidence)
  {
    if x.None? then 1
    else if y.None? then -1
    else if x.value.confidence > y.value.confidence then -1
    else if x.value.confidence < y.value.confidence then 1
    else 0
  }

  /** double.CompareTo on non-NaN values: the sign of x - y. */
  function CompareTo(x: real, y: real): (r: int)
    ensures r < 0 <==> x < y
    ensures r == 0 <==> x == y
    ensures r > 0 <==> x > y
  {
    if x < y then -1 else if x > y then 1 else 0
  }

  /** The Data generation's comparison `(a, b) => b.Confidence.CompareTo(a.Confidence)`. */
  function CompareDescending(a: ObjectResult, b: ObjectResult): int
  {
    CompareTo(b.confidence, a.confidence)
  }

  /** On non-null results the comparer is antisymmetric. */
  lemma CompareAntisymmetric(x: ObjectResult, y: ObjectResult)
    ensures Compare(Some(x), Some(y)) == -Compare(Some(y), Some(x))
  {
  }

  /** The Data generation's inline comparison orders exactly as ConfidenceComparer does. */
  lemma CompareDescendingAgrees(a: ObjectResult, b: ObjectResult)
    ensures CompareDescending(a, b) == Compare(Some(a), Some(b))
  {
  }

  /**
   * A sequence is in ConfidenceComparer order (no pair out of place) exactly
   * when its confidences do not increase.
   */
  lemma ComparerOrderIsSortedDesc(s: seq<ObjectResult>)
    ensures SortedDesc(s, Confidence) <==>
              forall i, j :: 0 <= i < j < |s| ==> Compare(Some(s[i]), Some(s[j])) <= 0
  {
    if !SortedDesc(s, Confidence) {
      var i, j :| 0 <= i < j < |s| && Confidence(s[i]) < Confidence(s[j]);
      assert Compare(Some(s[i]), Some(s[j])) == 1;
    }
  }
}
