// The label loops of the decoders that score every label of a box: the
// scores of one box sit `stride` apart from offset `first` on. The loops of
// the current generations (V8, RT-DETR) keep the first strict maximum above
// 0; the loop of the legacy ObjectDetectionModule keeps the first strict
// maximum among the labels that reach the threshold.

module LabelScores {
  import opened Common

  /** Where the score of label l sits. */
  function ScoreOffset(first: nat, stride: nat, l: nat): nat
  {
    first + stride * l
  }

  /**
   * The label loop over the first l labels: starting from (0, -1), a score
   * strictly greater than the best so far replaces it. A read past the end
   * of the tensor throws IndexOutOfRangeException.
   */
  function Best(span: seq<real>, first: nat, stride: nat, l: nat): (r: Result<(real, int)>)
    ensures r.Err? ==> r.error == IndexOutOfRange
    decreases l
  {
    if l == 0 then Ok((0.0, -1))
    else
      var prev := Best(span, first, stride, l - 1);
      var offset := ScoreOffset(first, stride, l - 1);
      if prev.Err? then prev
      else if offset >= |span| then Err(IndexOutOfRange)
      else if span[offset] > prev.value.0 then Ok((span[offset], l - 1))
      else prev
  }

  /** The label loop throws exactly when one of the l scores lies past the end of the tensor. */
  lemma {:induction false} BestFails(span: seq<real>, first: nat, stride: nat, l: nat)
    ensures Best(span, first, stride, l).Err? <==> exists m :: 0 <= m < l && ScoreOffset(first, stride, m) >= |span|
    decreases l
  {
    if l > 0 {
      BestFails(span, first, stride, l - 1);
    }
  }

  /**
   * The label loop finds the first strict maximum: when every score is at
   * most 0 it keeps (0, -1); otherwise it returns a positive score that no
   * score exceeds and no earlier score ties, with that score's label.
   */
  lemma {:induction false} BestFirstMax(span: seq<real>, first: nat, stride: nat, l: nat)
    requires Best(span, first, stride, l).Ok?
    ensures forall m :: 0 <= m < l ==> ScoreOffset(first, stride, m) < |span|
    ensures var (b, k) := Best(span, first, stride, l).value;
              -1 <= k < l &&
              (k == -1 ==> b == 0.0 && forall m :: 0 <= m < l ==> span[ScoreOffset(first, stride, m)] <= 0.0) &&
              (k >= 0 ==> b == span[ScoreOffset(first, stride, k)] && b > 0.0 &&
                          (forall m :: 0 <= m < l ==> span[ScoreOffset(first, stride, m)] <= b) &&
                          (forall m :: 0 <= m < k ==> span[ScoreOffset(first, stride, m)] < b))
    decreases l
  {
    if l > 0 {
      BestFirstMax(span, first, stride, l - 1);
    }
  }

  /** Once the loop has thrown, more labels do not change that. */
  lemma {:induction false} BestFailsLater(span: seq<real>, first: nat, stride: nat, l: nat, n: nat)
    requires l <= n && Best(span, first, stride, l).Err?
    ensures Best(span, first, stride, n).Err?
    decreases n - l
  {
    if l < n {
      BestFailsLater(span, first, stride, l, n - 1);
    }
  }

  /** The label loop as the modules run it: the offset walks from `first`, `stride` at a time. */
  method BestLabel(span: seq<real>, first: nat, stride: nat, labels: nat) returns (r: Result<(real, int)>)
    ensures r == Best(span, first, stride, labels)
  {
    var labelOffset := first;
    var bestConfidence := 0.0;
    var bestLabelIndex := -1;
    var l := 0;
    while l < labels
      invariant l <= labels && labelOffset == ScoreOffset(first, stride, l)
      invariant Best(span, first, stride, l) == Ok((bestConfidence, bestLabelIndex))
    {
      if labelOffset >= |span| {
        BestFailsLater(span, first, stride, l + 1, labels);
        return Err(IndexOutOfRange);
      }
      var boxConfidence := span[labelOffset];
      if boxConfidence > bestConfidence {
        bestConfidence := boxConfidence;
        bestLabelIndex := l;
      }
      assert stride * l + stride == stride * (l + 1);
      l := l + 1;
      labelOffset := labelOffset + stride;
    }
    r := Ok((bestConfidence, bestLabelIndex));
  }

  /**
   * The legacy label loop over the first l labels: only scores that reach
   * the threshold count; the first of them is taken, and a later one
   * replaces the pick only when strictly greater.
   */
  function Pick(span: seq<real>, first: nat, stride: nat, threshold: real, l: nat): (r: Result<Option<(real, nat)>>)
    ensures r.Err? ==> r.error == IndexOutOfRange
    ensures r.Ok? && r.value.Some? ==>
              r.value.value.1 < l && ScoreOffset(first, stride, r.value.value.1) < |span| &&
              r.value.value.0 == span[ScoreOffset(first, stride, r.value.value.1)]
    decreases l
  {
    if l == 0 then Ok(None)
    else
      var prev := Pick(span, first, stride, threshold, l - 1);
      var offset := ScoreOffset(first, stride, l - 1);
      if prev.Err? then prev
      else if offset >= |span| then Err(IndexOutOfRange)
      else if span[offset] < threshold then prev
      else if prev.value.None? || span[offset] > prev.value.value.0 then Ok(Some((span[offset], l - 1)))
      else prev
  }

  /** The legacy loop throws exactly when one of the l scores lies past the end of the tensor. */
  lemma {:induction false} PickFails(span: seq<real>, first: nat, stride: nat, threshold: real, l: nat)
    ensures Pick(span, first, stride, threshold, l).Err? <==> exists m :: 0 <= m < l && ScoreOffset(first, stride, m) >= |span|
    decreases l
  {
    if l > 0 {
      PickFails(span, first, stride, threshold, l - 1);
    }
  }

  /**
   * The legacy loop picks nothing exactly when no score reaches the
   * threshold; otherwise it picks a score that reaches it, that no score
   * exceeds and that no earlier score ties.
   */
  lemma {:induction false} PickFirstMax(span: seq<real>, first: nat, stride: nat, threshold: real, l: nat)
    requires Pick(span, first, stride, threshold, l).Ok?
    ensures forall m :: 0 <= m < l ==> ScoreOffset(first, stride, m) < |span|
    ensures Pick(span, first, stride, threshold, l).value.None? <==>
              forall m :: 0 <= m < l ==> span[ScoreOffset(first, stride, m)] < threshold
    ensures Pick(span, first, stride, threshold, l).value.Some? ==>
              var (b, k) := Pick(span, first, stride, threshold, l).value.value;
              k < l && b == span[ScoreOffset(first, stride, k)] && b >= threshold &&
              (forall m :: 0 <= m < l ==> span[ScoreOffset(first, stride, m)] <= b) &&
              (forall m :: 0 <= m < k ==> span[ScoreOffset(first, stride, m)] < b)
    decreases l
  {
    if l > 0 {
      PickFirstMax(span, first, stride, threshold, l - 1);
    }
  }

  /** Some score among the first l lies within the tensor and reaches the threshold. */
  predicate AnyReaches(span: seq<real>, first: nat, stride: nat, threshold: real, l: nat)
  {
    exists m :: 0 <= m < l && ScoreOffset(first, stride, m) < |span| && span[ScoreOffset(first, stride, m)] >= threshold
  }

  /**
   * Score b of label k is the legacy pick among the first l labels: it
   * reaches the threshold, every score lies within the tensor and none is
   * greater, and every earlier score is smaller.
   */
  predicate FirstMaxFrom(span: seq<real>, first: nat, stride: nat, threshold: real, l: nat, b: real, k: nat)
  {
    k < l && ScoreOffset(first, stride, k) < |span| && b == span[ScoreOffset(first, stride, k)] && b >= threshold &&
    (forall m :: 0 <= m < l ==> ScoreOffset(first, stride, m) < |span| && span[ScoreOffset(first, stride, m)] <= b) &&
    (forall m :: 0 <= m < k ==> span[ScoreOffset(first, stride, m)] < b)
  }

  /** The legacy loop's outcome in those terms: no pick exactly when no score reaches the threshold, else the first maximum. */
  lemma PickMeans(span: seq<real>, first: nat, stride: nat, threshold: real, l: nat)
    requires Pick(span, first, stride, threshold, l).Ok?
    ensures Pick(span, first, stride, threshold, l).value.None? <==> !AnyReaches(span, first, stride, threshold, l)
    ensures Pick(span, first, stride, threshold, l).value.Some? ==>
              FirstMaxFrom(span, first, stride, threshold, l, Pick(span, first, stride, threshold, l).value.value.0,
                           Pick(span, first, stride, threshold, l).value.value.1)
  {
    PickFirstMax(span, first, stride, threshold, l);
  }

  /** Once the legacy loop has picked a label, more labels keep a pick unless a read throws. */
  lemma {:induction false} PickStays(span: seq<real>, first: nat, stride: nat, threshold: real, l: nat, n: nat)
    requires l <= n && (Pick(span, first, stride, threshold, l).Err? || Pick(span, first, stride, threshold, l).value.Some?)
    ensures Pick(span, first, stride, threshold, n).Err? || Pick(span, first, stride, threshold, n).value.Some?
    decreases n - l
  {
    if l < n {
      PickStays(span, first, stride, threshold, l, n - 1);
    }
  }
}
