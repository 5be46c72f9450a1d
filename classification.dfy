// Classification: the tensor holds one score per label, and both versions
// of ClassifyTensor return the numberOfClasses most confident labels, most
// confident first. ClassificationModuleV8 keeps a min-priority queue of at
// most numberOfClasses entries; ClassificationModule sorts every entry
// (stably) and takes a prefix. The two are proved to return the same
// confidences in the same order.
//
// An entry is identified by its tensor index: the library creates one
// Classification object per index, so two entries with equal name and
// confidence are still different objects.

module Classification {
  import opened Common
  import opened Models
  import opened Sorting

  /** The indices 0 .. n-1. */
  function Indices(n: nat): (u: set<nat>)
    ensures forall j: nat :: j in u <==> j < n
  {
    if n == 0 then {} else Indices(n - 1) + {n - 1}
  }

  /** The indices 0 .. n-1, in order. */
  function Upto(n: nat): (r: seq<nat>)
    ensures |r| == n && forall k :: 0 <= k < n ==> r[k] == k
  {
    if n == 0 then [] else Upto(n - 1) + [n - 1]
  }

  predicate Below(p: seq<nat>, n: int)
  {
    forall k :: 0 <= k < |p| ==> p[k] < n
  }

  predicate Distinct(p: seq<nat>)
  {
    forall a, b :: 0 <= a < b < |p| ==> p[a] != p[b]
  }

  /** Most confident first. */
  ghost predicate Descending(p: seq<nat>, span: seq<real>)
    requires Below(p, |span|)
  {
    forall a, b :: 0 <= a < b < |p| ==> span[p[a]] >= span[p[b]]
  }

  /** Index j is at most as confident as every index of p. */
  ghost predicate Outranked(p: seq<nat>, span: seq<real>, j: nat)
    requires Below(p, |span|) && j < |span|
  {
    forall k :: 0 <= k < |p| ==> span[j] <= span[p[k]]
  }

  /**
   * p is a top-|p| pick from the indices u: distinct members of u, most
   * confident first, and no index of u that was left out is more confident
   * than one that was picked.
   */
  ghost predicate TopIn(p: seq<nat>, u: set<nat>, span: seq<real>)
  {
    (forall j :: j in u ==> j < |span|) &&
    Below(p, |span|) &&
    (forall k :: 0 <= k < |p| ==> p[k] in u) &&
    Distinct(p) &&
    Descending(p, span) &&
    (forall j :: j in u && j !in p ==> Outranked(p, span, j))
  }

  /** The result entry for tensor index i: the score paired with label i's name. */
  function Entry(span: seq<real>, labels: seq<LabelModel>, i: nat): ClassificationResult
    requires i < |span| && i < |labels|
  {
    ClassificationResult(labels[i].name, span[i])
  }

  /** Entry as a total function of the index (a missing label never reaches it). */
  function EntryOf(span: seq<real>, labels: seq<LabelModel>): nat -> ClassificationResult
  {
    (i: nat) => if i < |span| && i < |labels| then Entry(span, labels, i) else ClassificationResult([], 0.0)
  }

  /** The entries for the picked indices, in pick order. */
  function Picked(span: seq<real>, labels: seq<LabelModel>, p: seq<nat>): (r: seq<ClassificationResult>)
    ensures |r| == |p|
    ensures forall k :: 0 <= k < |p| && p[k] < |span| && p[k] < |labels| ==>
              r[k].labelName == labels[p[k]].name && r[k].confidence == span[p[k]]
  {
    Image(EntryOf(span, labels), p)
  }

  /** How many entries a request for numberOfClasses returns: Take(n) with n <= 0 takes nothing. */
  function Wanted(numberOfClasses: int, available: nat): (k: nat)
    ensures k <= available
    ensures numberOfClasses <= 0 ==> k == 0
    ensures numberOfClasses >= 1 ==> k == Min(numberOfClasses, available)
  {
    if numberOfClasses <= 0 then 0 else Min(numberOfClasses, available)
  }

  // ---------------------------------------------------------------------
  // Rearrangements of distinct indices

  lemma {:induction false} DistinctCounts(t: seq<nat>, x: nat)
    requires Distinct(t)
    ensures multiset(t)[x] <= 1
  {
    if |t| > 0 {
      assert t == [t[0]] + t[1..];
      assert Distinct(t[1..]);
      DistinctCounts(t[1..], x);
      assert t[0] == x ==> x !in t[1..];
    }
  }

  lemma RepeatCounts(s: seq<nat>, a: nat, b: nat)
    requires a < b < |s|
    ensures s[a] == s[b] ==> multiset(s)[s[b]] >= 2
  {
    assert s == s[..b] + [s[b]] + s[b + 1..];
    assert s[a] in s[..b];
  }

  /** A rearrangement of distinct indices is distinct. */
  lemma DistinctPermutation(s: seq<nat>, t: seq<nat>)
    requires multiset(s) == multiset(t) && Distinct(t)
    ensures Distinct(s)
  {
    forall a, b | 0 <= a < b < |s|
      ensures s[a] != s[b]
    {
      RepeatCounts(s, a, b);
      DistinctCounts(t, s[b]);
    }
  }

  lemma OutrankedPermutation(p: seq<nat>, q: seq<nat>, span: seq<real>, j: nat)
    requires multiset(p) == multiset(q) && Below(q, |span|) && j < |span|
    requires Outranked(q, span, j)
    ensures Below(p, |span|) && Outranked(p, span, j)
  {
    forall k | 0 <= k < |p|
      ensures p[k] < |span| && span[j] <= span[p[k]]
    {
      assert p[k] in multiset(q);
      var m :| 0 <= m < |q| && q[m] == p[k];
    }
  }

  // ---------------------------------------------------------------------
  // ClassificationModuleV8: the min-priority queue

  /** Index k of the queue holds a least confident entry: what Peek and Dequeue may hand out. */
  predicate LeastAt(queue: seq<nat>, span: seq<real>, k: int)
    requires Below(queue, |span|)
  {
    0 <= k < |queue| && forall m :: 0 <= m < |queue| ==> span[queue[k]] <= span[queue[m]]
  }

  function LeastIndex(queue: seq<nat>, span: seq<real>): (k: nat)
    requires |queue| > 0 && Below(queue, |span|)
    ensures LeastAt(queue, span, k)
  {
    if |queue| == 1 then 0
    else
      var k := LeastIndex(queue[1..], span);
      if span[queue[0]] <= span[queue[k + 1]] then 0 else k + 1
  }

  /** The queue with entry k dequeued. */
  function Without(queue: seq<nat>, k: nat): (r: seq<nat>)
    requires k < |queue|
    ensures |r| == |queue| - 1
    ensures forall m :: 0 <= m < |r| ==> r[m] == (if m < k then queue[m] else queue[m + 1])
    ensures multiset(r) == multiset(queue) - multiset{queue[k]}
  {
    assert queue == queue[..k] + [queue[k]] + queue[k + 1..];
    queue[..k] + queue[k + 1..]
  }

  /**
   * The queue after offering indices 0 .. i-1: min(numberOfClasses, i)
   * distinct indices below i, all of them while the queue has not filled,
   * and every index below i that is not queued is at most as confident as
   * every queued one.
   */
  ghost predicate QueueHolds(queue: seq<nat>, span: seq<real>, numberOfClasses: int, i: nat)
  {
    i <= |span| &&
    |queue| == Min(numberOfClasses, i) &&
    Below(queue, i) &&
    Distinct(queue) &&
    (i <= numberOfClasses ==> forall j: nat :: j < i ==> j in queue) &&
    (forall j: nat :: j < i && j !in queue ==> Outranked(queue, span, j))
  }

  lemma QueueAppend(queue: seq<nat>, span: seq<real>, numberOfClasses: int, i: nat)
    requires QueueHolds(queue, span, numberOfClasses, i) && i < |span| && |queue| < numberOfClasses
    ensures QueueHolds(queue + [i], span, numberOfClasses, i + 1)
  {
    var next := queue + [i];
    forall j: nat | j < i + 1
      ensures j in next
    {
      if j < i {
        assert j in queue;
        var m :| 0 <= m < |queue| && queue[m] == j;
        assert next[m] == j;
      } else {
        assert next[|queue|] == j;
      }
    }
  }

  lemma QueueReplace(queue: seq<nat>, span: seq<real>, numberOfClasses: int, i: nat, k: nat)
    requires QueueHolds(queue, span, numberOfClasses, i) && i < |span| && |queue| == numberOfClasses
    requires Below(queue, |span|) && LeastAt(queue, span, k) && span[i] > span[queue[k]]
    ensures QueueHolds(Without(queue, k) + [i], span, numberOfClasses, i + 1)
  {
    var rest := Without(queue, k);
    var next := rest + [i];
    var least := queue[k];
    forall j: nat | j < i + 1 && j !in next
      ensures Outranked(next, span, j)
    {
      if j == least {
        forall m | 0 <= m < |next|
          ensures span[j] <= span[next[m]]
        {
          if m < |rest| {
            assert next[m] == queue[if m < k then m else m + 1];
          }
        }
      } else {
        assert j !in queue by {
          forall m | 0 <= m < |queue|
            ensures queue[m] != j
          {
            if m < k {
              assert rest[m] == queue[m] && rest[m] in next;
            } else if m > k {
              assert rest[m - 1] == queue[m] && rest[m - 1] in next;
            }
          }
        }
        assert Outranked(queue, span, j);
        forall m | 0 <= m < |next|
          ensures span[j] <= span[next[m]]
        {
          if m < |rest| {
            assert next[m] == queue[if m < k then m else m + 1];
          }
        }
      }
    }
  }

  lemma QueueSkip(queue: seq<nat>, span: seq<real>, numberOfClasses: int, i: nat, k: nat)
    requires QueueHolds(queue, span, numberOfClasses, i) && i < |span| && |queue| == numberOfClasses
    requires Below(queue, |span|) && LeastAt(queue, span, k) && span[i] <= span[queue[k]]
    ensures QueueHolds(queue, span, numberOfClasses, i + 1)
  {
    assert i !in queue;
    assert Outranked(queue, span, i);
  }

  /**
   * One iteration of the loop over the tensor: a queue with room takes index
   * i; a full one replaces its least confident entry when index i is
   * strictly more confident, and otherwise leaves i out.
   */
  method Offer(queue: seq<nat>, span: seq<real>, numberOfClasses: int, i: nat) returns (next: seq<nat>)
    requires numberOfClasses >= 1 && i < |span|
    requires QueueHolds(queue, span, numberOfClasses, i)
    ensures QueueHolds(next, span, numberOfClasses, i + 1)
    ensures |queue| == numberOfClasses && (forall m :: 0 <= m < |queue| ==> span[i] <= span[queue[m]]) ==> next == queue
  {
    if |queue| < numberOfClasses {
      QueueAppend(queue, span, numberOfClasses, i);
      return queue + [i];
    }
    assert Below(queue, |span|);
    assert LeastAt(queue, span, LeastIndex(queue, span));
    var k :| 0 <= k < |queue| && LeastAt(queue, span, k);
    if span[i] > span[queue[k]] {
      QueueReplace(queue, span, numberOfClasses, i, k);
      next := Without(queue, k) + [i];
    } else {
      QueueSkip(queue, span, numberOfClasses, i, k);
      next := queue;
    }
  }

  /** While draining: the dequeued indices are most confident first, and none is less confident than one still queued. */
  ghost predicate DrainHolds(left: seq<nat>, order: seq<nat>, queue: seq<nat>, span: seq<real>)
  {
    Below(left, |span|) && Below(order, |span|) &&
    multiset(left) + multiset(order) == multiset(queue) &&
    Descending(order, span) &&
    forall c :: 0 <= c < |order| ==> Outranked(left, span, order[c])
  }

  lemma DrainStep(left: seq<nat>, order: seq<nat>, queue: seq<nat>, span: seq<real>, k: nat)
    requires DrainHolds(left, order, queue, span) && LeastAt(left, span, k)
    ensures DrainHolds(Without(left, k), [left[k]] + order, queue, span)
  {
    var rest := Without(left, k);
    var next := [left[k]] + order;
    forall a, b | 0 <= a < b < |next|
      ensures span[next[a]] >= span[next[b]]
    {
      assert next[b] == order[b - 1] && Outranked(left, span, order[b - 1]);
      if a > 0 {
        assert next[a] == order[a - 1];
      }
    }
    forall c | 0 <= c < |next|
      ensures Outranked(rest, span, next[c])
    {
      forall m | 0 <= m < |rest|
        ensures span[next[c]] <= span[rest[m]]
      {
        var n := if m < k then m else m + 1;
        assert rest[m] == left[n];
        if c > 0 {
          assert next[c] == order[c - 1] && Outranked(left, span, order[c - 1]);
        }
      }
    }
  }

  /** Dequeue: hand over a least confident queued index. */
  method Dequeue(left: seq<nat>, ghost order: seq<nat>, ghost queue: seq<nat>, span: seq<real>)
    returns (x: nat, rest: seq<nat>)
    requires |left| > 0 && DrainHolds(left, order, queue, span)
    ensures |rest| == |left| - 1 && x < |span|
    ensures DrainHolds(rest, [x] + order, queue, span)
  {
    assert Below(left, |span|);
    assert LeastAt(left, span, LeastIndex(left, span));
    var k :| 0 <= k < |left| && LeastAt(left, span, k);
    DrainStep(left, order, queue, span, k);
    x, rest := left[k], Without(left, k);
  }

  /**
   * Draining the queue into an array from its end: each Dequeue hands over
   * a least confident entry, so the array ends up most confident first and
   * holds exactly the queued indices.
   */
  method Drain(queue: seq<nat>, span: seq<real>, labels: seq<LabelModel>)
    returns (result: array<ClassificationResult>, ghost order: seq<nat>)
    requires Below(queue, |span|)
    ensures result.Length == |order| == |queue|
    ensures multiset(order) == multiset(queue) && Below(order, |span|) && Descending(order, span)
    ensures result[..] == Picked(span, labels, order)
  {
    result := new ClassificationResult[|queue|](_ => ClassificationResult([], 0.0));
    var left := queue;
    order := [];
    var j := |queue|;
    while j > 0
      invariant 0 <= j == |left| <= |queue| == result.Length
      invariant |order| == |queue| - j
      invariant DrainHolds(left, order, queue, span)
      invariant result[j..] == Picked(span, labels, order)
    {
      var x, rest := Dequeue(left, order, queue, span);
      result[j - 1] := EntryOf(span, labels)(x);
      assert result[j - 1..] == [result[j - 1]] + result[j..];
      assert Picked(span, labels, [x] + order) == [EntryOf(span, labels)(x)] + Picked(span, labels, order);
      order := [x] + order;
      left := rest;
      j := j - 1;
    }
  }

  /** A drained queue that held min(n, |span|) indices is a top pick of the whole tensor. */
  lemma DrainedTop(queue: seq<nat>, picks: seq<nat>, span: seq<real>, numberOfClasses: int)
    requires numberOfClasses >= 1 && QueueHolds(queue, span, numberOfClasses, |span|)
    requires multiset(picks) == multiset(queue) && Below(picks, |span|) && Descending(picks, span)
    ensures TopIn(picks, Indices(|span|), span)
  {
    DistinctPermutation(picks, queue);
    forall j | j in Indices(|span|) && j !in picks
      ensures Outranked(picks, span, j)
    {
      assert j !in multiset(queue);
      OutrankedPermutation(picks, queue, span, j);
    }
  }

  /**
   * ClassificationModuleV8.ClassifyTensor. Index i reads labels[i] before
   * anything else, so a tensor longer than the label list fails with an
   * index error; with numberOfClasses <= 0 the first entry finds the queue
   * full and peeks it while it is empty.
   */
  method ClassifyTensorV8(span: seq<real>, labels: seq<LabelModel>, numberOfClasses: int)
    returns (r: Result<seq<ClassificationResult>>, ghost picks: seq<nat>)
    ensures r.Ok? <==> |span| == 0 || (numberOfClasses >= 1 && |span| <= |labels|)
    ensures r.Err? ==> r.error == (if |labels| == 0 || numberOfClasses >= 1 then IndexOutOfRange else InvalidOperation)
    ensures r.Ok? ==> |picks| == Wanted(numberOfClasses, |span|) && TopIn(picks, Indices(|span|), span)
    ensures r.Ok? ==> r.value == Picked(span, labels, picks)
  {
    picks := [];
    if |span| == 0 {
      return Ok([]), picks;
    }
    var queue: seq<nat> := [];
    var i := 0;
    while i < |span|
      invariant 0 <= i <= |span| && i <= |labels|
      invariant i > 0 ==> numberOfClasses >= 1
      invariant i > 0 ==> QueueHolds(queue, span, numberOfClasses, i)
      invariant i == 0 ==> queue == []
    {
      if i >= |labels| {
        return Err(IndexOutOfRange), picks;
      }
      if numberOfClasses <= 0 {
        return Err(InvalidOperation), picks;
      }
      queue := Offer(queue, span, numberOfClasses, i);
      i := i + 1;
    }
    var result;
    result, picks := Drain(queue, span, labels);
    DrainedTop(queue, picks, span, numberOfClasses);
    r := Ok(result[..]);
  }

  // ---------------------------------------------------------------------
  // ClassificationModule: OrderByDescending, then Take

  function IndexScore(span: seq<real>): nat -> real
  {
    (i: nat) => if i < |span| then span[i] else 0.0
  }

  function EntryConfidence(c: ClassificationResult): real
  {
    c.confidence
  }

  /** The tensor indices in the order a stable sort by descending score leaves them. */
  function Ranking(span: seq<real>): (r: seq<nat>)
    ensures |r| == |span|
  {
    InsertionSort(Upto(|span|), IndexScore(span))
  }

  /** The ranking holds every index exactly once. */
  lemma RankingPermutes(span: seq<real>)
    ensures multiset(Ranking(span)) == multiset(Upto(|span|))
  {
    InsertionSortCorrect(Upto(|span|), IndexScore(span));
  }

  lemma RankingBelow(span: seq<real>)
    ensures Below(Ranking(span), |span|)
  {
    var r := Ranking(span);
    RankingPermutes(span);
    forall k | 0 <= k < |r|
      ensures r[k] < |span|
    {
      assert r[k] in multiset(Upto(|span|));
    }
  }

  lemma RankingDistinct(span: seq<real>)
    ensures Distinct(Ranking(span))
  {
    RankingPermutes(span);
    DistinctPermutation(Ranking(span), Upto(|span|));
  }

  lemma RankingCovers(span: seq<real>, j: nat)
    requires j < |span|
    ensures j in Ranking(span)
  {
    RankingPermutes(span);
    assert Upto(|span|)[j] == j;
    assert j in multiset(Ranking(span));
  }

  /** The ranking is most confident first. */
  lemma RankingDescending(span: seq<real>)
    ensures Below(Ranking(span), |span|) && Descending(Ranking(span), span)
  {
    var r := Ranking(span);
    RankingBelow(span);
    InsertionSortCorrect(Upto(|span|), IndexScore(span));
    forall a, b | 0 <= a < b < |r|
      ensures span[r[a]] >= span[r[b]]
    {
      assert IndexScore(span)(r[a]) >= IndexScore(span)(r[b]);
    }
  }

  /** OrderByDescending is stable: indices of equal score keep their tensor order. */
  lemma RankingStable(span: seq<real>)
    ensures Below(Ranking(span), |span|)
    ensures forall a, b :: 0 <= a < b < |span| && span[Ranking(span)[a]] == span[Ranking(span)[b]] ==>
              Ranking(span)[a] < Ranking(span)[b]
  {
    var r := Ranking(span);
    RankingBelow(span);
    InsertionSortStable(Upto(|span|), IndexScore(span), (i: nat) => i);
    forall a, b | 0 <= a < b < |r| && span[r[a]] == span[r[b]]
      ensures r[a] < r[b]
    {
      assert IndexScore(span)(r[a]) == IndexScore(span)(r[b]);
    }
  }

  /** An index outside a prefix of the ranking is at most as confident as every index in it. */
  lemma RankingPrefixOmitted(span: seq<real>, k: nat, j: nat)
    requires k <= |span| && j < |span| && j !in Ranking(span)[..k]
    ensures Below(Ranking(span)[..k], |span|) && Outranked(Ranking(span)[..k], span, j)
  {
    var r := Ranking(span);
    RankingDescending(span);
    RankingCovers(span, j);
    var p := r[..k];
    var m :| 0 <= m < |r| && r[m] == j;
    assert forall c :: 0 <= c < k ==> r[c] != j by {
      assert forall c :: 0 <= c < k ==> r[c] == p[c];
    }
    forall c | 0 <= c < k
      ensures span[j] <= span[p[c]]
    {
      assert p[c] == r[c];
    }
  }

  /** Every prefix of the ranking is a top pick of its length. */
  lemma RankingTop(span: seq<real>, k: nat)
    requires k <= |span|
    ensures TopIn(Ranking(span)[..k], Indices(|span|), span)
  {
    var r := Ranking(span);
    RankingDistinct(span);
    RankingDescending(span);
    var p := r[..k];
    assert Distinct(p) && Below(p, |span|);
    assert Descending(p, span);
    forall j | j in Indices(|span|) && j !in p
      ensures Outranked(p, span, j)
    {
      RankingPrefixOmitted(span, k, j);
    }
  }

  /** The fill loop: entry i pairs span[i] with labels[i], and a missing label is an index error. */
  method FillEntries(span: seq<real>, labels: seq<LabelModel>) returns (r: Result<array<ClassificationResult>>)
    ensures r.Ok? <==> |span| <= |labels|
    ensures r.Err? ==> r.error == IndexOutOfRange
    ensures r.Ok? ==> r.value[..] == Image(EntryOf(span, labels), Upto(|span|))
  {
    var tmp := new ClassificationResult[|span|](_ => ClassificationResult([], 0.0));
    for i := 0 to |span|
      invariant i <= |labels|
      invariant tmp[..i] == Image(EntryOf(span, labels), Upto(i))
    {
      if i >= |labels| {
        return Err(IndexOutOfRange);
      }
      tmp[i] := Entry(span, labels, i);
      assert Upto(i + 1) == Upto(i) + [i];
    }
    return Ok(tmp);
  }

  /** Sorting the entries by confidence is listing them in ranking order. */
  lemma SortedEntries(span: seq<real>, labels: seq<LabelModel>)
    requires |span| <= |labels|
    ensures InsertionSort(Image(EntryOf(span, labels), Upto(|span|)), EntryConfidence) ==
            Image(EntryOf(span, labels), Ranking(span))
  {
    forall i: nat
      ensures IndexScore(span)(i) == EntryConfidence(EntryOf(span, labels)(i))
    {
    }
    InsertionSortImage(Upto(|span|), EntryOf(span, labels), EntryConfidence, IndexScore(span));
  }

  /** ClassificationModule.ClassifyTensor. */
  method ClassifyTensor(span: seq<real>, labels: seq<LabelModel>, numberOfClasses: int)
    returns (r: Result<seq<ClassificationResult>>)
    ensures |span| > |labels| ==> r == Err(IndexOutOfRange)
    ensures |span| <= |labels| ==> r == Ok(Picked(span, labels, Ranking(span)[..Wanted(numberOfClasses, |span|)]))
  {
    var filled := FillEntries(span, labels);
    if filled.Err? {
      return Err(filled.error);
    }
    var ordered := InsertionSort(filled.value[..], EntryConfidence);
    var k := Wanted(numberOfClasses, |span|);
    SortedEntries(span, labels);
    assert ordered[..k] == Image(EntryOf(span, labels), Ranking(span)[..k]);
    r := Ok(ordered[..k]);
  }

  // ---------------------------------------------------------------------
  // The two versions agree

  /** The first index of a non-empty top pick is at least as confident as any index of its universe. */
  lemma HeadIsBest(p: seq<nat>, u: set<nat>, span: seq<real>, j: nat)
    requires TopIn(p, u, span) && |p| > 0 && j in u
    ensures span[j] <= span[p[0]]
  {
    if j !in p {
      assert Outranked(p, span, j);
    } else {
      var m :| 0 <= m < |p| && p[m] == j;
    }
  }

  /** Dropping the first index of a top pick leaves a top pick of the remaining universe. */
  lemma TailTop(p: seq<nat>, u: set<nat>, span: seq<real>)
    requires TopIn(p, u, span) && |p| > 0
    ensures TopIn(p[1..], u - {p[0]}, span)
  {
    var t := p[1..];
    forall k | 0 <= k < |t|
      ensures t[k] in u - {p[0]}
    {
      assert t[k] == p[k + 1];
    }
    forall j | j in u - {p[0]} && j !in t
      ensures Outranked(t, span, j)
    {
      assert j !in p by {
        forall m | 0 <= m < |p|
          ensures p[m] != j
        {
          if m > 0 { assert p[m] == t[m - 1]; }
        }
      }
      assert Outranked(p, span, j);
    }
  }

  function Swap(a: nat, b: nat, x: nat): nat
  {
    if x == a then b else if x == b then a else x
  }

  /** p with a and b exchanged wherever they occur. */
  function Swapped(p: seq<nat>, a: nat, b: nat): (q: seq<nat>)
    ensures |q| == |p| && forall k :: 0 <= k < |p| ==> q[k] == Swap(a, b, p[k])
  {
    if |p| == 0 then [] else [Swap(a, b, p[0])] + Swapped(p[1..], a, b)
  }

  lemma SwapInRange(p: seq<nat>, u: set<nat>, span: seq<real>, a: nat, b: nat)
    requires forall j :: j in u ==> j < |span|
    requires forall k :: 0 <= k < |p| ==> p[k] in u
    requires a in u && b in u && span[a] == span[b]
    ensures forall k :: 0 <= k < |p| ==> Swapped(p, a, b)[k] in u && span[Swapped(p, a, b)[k]] == span[p[k]]
  {
  }

  lemma SwapDistinct(p: seq<nat>, a: nat, b: nat)
    requires Distinct(p)
    ensures Distinct(Swapped(p, a, b))
  {
  }

  /** Exchanging two equally confident indices of the universe in a top pick leaves a top pick with the same scores. */
  lemma SwapTop(p: seq<nat>, u: set<nat>, span: seq<real>, a: nat, b: nat)
    requires TopIn(p, u, span) && a in u && b in u && span[a] == span[b]
    ensures TopIn(Swapped(p, a, b), u, span)
    ensures forall k :: 0 <= k < |p| ==> span[Swapped(p, a, b)[k]] == span[p[k]]
  {
    var q := Swapped(p, a, b);
    SwapInRange(p, u, span, a, b);
    SwapDistinct(p, a, b);
    assert Below(q, |span|);
    assert Descending(q, span) by {
      forall c, d | 0 <= c < d < |q|
        ensures span[q[c]] >= span[q[d]]
      {
        assert span[p[c]] >= span[p[d]];
      }
    }
    forall j | j in u && j !in q
      ensures Outranked(q, span, j)
    {
      SwapOmitted(p, u, span, a, b, j);
    }
  }

  lemma SwapOmitted(p: seq<nat>, u: set<nat>, span: seq<real>, a: nat, b: nat, j: nat)
    requires TopIn(p, u, span) && a in u && b in u && span[a] == span[b]
    requires j in u && j !in Swapped(p, a, b)
    ensures Below(Swapped(p, a, b), |span|) && Outranked(Swapped(p, a, b), span, j)
  {
    var q := Swapped(p, a, b);
    SwapInRange(p, u, span, a, b);
    var t := Swap(a, b, j);
    assert t !in p by {
      forall m | 0 <= m < |p|
        ensures p[m] != t
      {
        assert q[m] == Swap(a, b, p[m]) && q[m] != j;
      }
    }
    assert t in u && span[t] == span[j];
    assert Outranked(p, span, t);
    forall m | 0 <= m < |q|
      ensures span[j] <= span[q[m]]
    {
      assert span[t] <= span[p[m]];
    }
  }

  /** Two top picks of one length from one universe carry the same scores, position by position. */
  lemma {:induction false} TopPicksAgree(p1: seq<nat>, p2: seq<nat>, u: set<nat>, span: seq<real>)
    requires TopIn(p1, u, span) && TopIn(p2, u, span) && |p1| == |p2|
    ensures forall k :: 0 <= k < |p1| ==> span[p1[k]] == span[p2[k]]
    decreases |p1|
  {
    if |p1| > 0 {
      var a, b := p1[0], p2[0];
      HeadIsBest(p1, u, span, b);
      HeadIsBest(p2, u, span, a);
      SwapTop(p2, u, span, a, b);
      var q := Swapped(p2, a, b);
      assert q[0] == a;
      TailTop(p1, u, span);
      TailTop(q, u, span);
      TopPicksAgree(p1[1..], q[1..], u - {a}, span);
      forall k | 0 <= k < |p1|
        ensures span[p1[k]] == span[p2[k]]
      {
        if k > 0 {
          assert p1[k] == p1[1..][k - 1] && q[k] == q[1..][k - 1];
        }
      }
    }
  }

  /**
   * Any top pick, in particular the one ClassificationModuleV8 returns,
   * carries the scores of the same-length prefix of the stable ranking that
   * ClassificationModule returns: the two versions report the same
   * confidences in the same order, and can differ only in which of several
   * equally confident labels they name.
   */
  lemma SameConfidences(span: seq<real>, picks: seq<nat>)
    requires TopIn(picks, Indices(|span|), span) && |picks| <= |span|
    ensures forall k :: 0 <= k < |picks| ==> Ranking(span)[k] < |span| && span[picks[k]] == span[Ranking(span)[k]]
  {
    var prefix := Ranking(span)[..|picks|];
    RankingTop(span, |picks|);
    TopPicksAgree(picks, prefix, Indices(|span|), span);
    assert forall k :: 0 <= k < |picks| ==> prefix[k] == Ranking(span)[k];
  }
}
