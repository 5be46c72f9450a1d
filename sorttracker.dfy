// The SORT tracker (Trackers/SortTracker.cs): keeps one track per object
// identity, matches each frame's detections to the live tracks with the
// linear-assignment solver, issues fresh ids to unmatched detections, and
// ages out tracks that go unmatched for too long.
//
// The tracker's dictionary is modelled as a map from id to the value of the
// track (Tracking.Track); the detections are an array whose elements the
// tracker updates (Id and Tail), as the library updates the caller's objects.
// The cost of pairing a track with a detection (one minus IoU plus the
// scaled distance to the Kalman prediction) is a function parameter.

module SortTracking {
  import opened Common
  import opened Geometry
  import opened Models
  import opened Tracking
  import Lapjv

  // ---------------------------------------------------------------------------
  // The steps of an update, on values
  // ---------------------------------------------------------------------------

  /** The tracker invariant: ids issued so far, ages within bounds, each box carrying its own id, bounded tails. */
  ghost predicate ValidTracks(tracks: map<int, Track>, nextId: int, maxAge: int, tailLength: int)
  {
    tailLength >= 1 && nextId >= 0 &&
    forall k :: k in tracks ==>
      1 <= k <= nextId && 1 <= tracks[k].age <= maxAge &&
      tracks[k].box.id == Some(k) && |tracks[k].tail| <= tailLength
  }

  /** Every track after one KalmanPredict call. */
  function PredictAll(tracks: map<int, Track>): map<int, Track>
  {
    map k | k in tracks :: tracks[k].(kalman := tracks[k].kalman + [Predict])
  }

  /** RemoveOldTrackedObjects: every Age grows by one and the tracks now older than maxAge are dropped. */
  function Aged(tracks: map<int, Track>, maxAge: int): map<int, Track>
  {
    map k | k in tracks && tracks[k].age + 1 <= maxAge :: tracks[k].(age := tracks[k].age + 1)
  }

  /** `order` lists each key of the dictionary once: the dictionary's enumeration order. */
  ghost predicate Enumerates(order: seq<int>, tracks: map<int, Track>)
  {
    (forall i :: 0 <= i < |order| ==> order[i] in tracks) &&
    (forall k :: k in tracks ==> k in order) &&
    (forall i1, i2 :: 0 <= i1 < i2 < |order| ==> order[i1] != order[i2])
  }

  /** The active tracks: the entries with Age <= maxAge, in enumeration order. */
  function Active(order: seq<int>, tracks: map<int, Track>, maxAge: int): (r: seq<(int, Track)>)
    requires forall i :: 0 <= i < |order| ==> order[i] in tracks
    ensures |r| <= |order|
    ensures forall i :: 0 <= i < |r| ==> r[i].0 in tracks && r[i].1 == tracks[r[i].0] && r[i].1.age <= maxAge
  {
    if |order| == 0 then []
    else
      var rest := Active(order[..|order| - 1], tracks, maxAge);
      var k := order[|order| - 1];
      if tracks[k].age <= maxAge then rest + [(k, tracks[k])] else rest
  }

  /** The state MatchPredictedObjects threads through its rows. */
  datatype MatchState = MatchState(dets: seq<Detection>, tracks: map<int, Track>, taken: set<int>)

  /**
   * MatchPredictedObjects for a given solver assignment `a`: row i pairs the
   * i-th active track with detection a[i] when a[i] is not -1 and the
   * original cost is below the threshold; the detection then takes the
   * track's id, the track's Age is reset and the track follows the detection.
   */
  ghost function Matches(a: seq<int>, active: seq<(int, Track)>, orig: seq<Detection>, s0: MatchState,
                         pairCost: (Track, Detection) -> real, costThreshold: real, tailLength: int): (r: MatchState)
    requires |a| <= |active| && |s0.dets| == |orig| && tailLength >= 1
    requires forall i :: 0 <= i < |a| ==> a[i] == -1 || 0 <= a[i] < |orig|
    requires forall i :: 0 <= i < |active| ==> active[i].0 in s0.tracks
    ensures |r.dets| == |orig| && r.tracks.Keys == s0.tracks.Keys
  {
    if |a| == 0 then s0
    else
      var s := Matches(a[..|a| - 1], active, orig, s0, pairCost, costThreshold, tailLength);
      var i := |a| - 1;
      var j := a[i];
      var key := active[i].0;
      if j == -1 || !(pairCost(active[i].1, orig[j]) < costThreshold) then s
      else
        var step := TrackStep(s.tracks[key].(age := 0), s.dets[j].(id := Some(key)), tailLength);
        MatchState(s.dets[j := step.0], s.tracks[key := step.1], s.taken + {j})
  }

  /** Row i of the assignment pairs its track with its detection: a[i] is a detection and the cost is under the threshold. */
  ghost predicate RowMatches(a: seq<int>, active: seq<(int, Track)>, orig: seq<Detection>,
                             pairCost: (Track, Detection) -> real, costThreshold: real, i: int)
    requires 0 <= i < |a| <= |active|
    requires a[i] == -1 || 0 <= a[i] < |orig|
  {
    a[i] != -1 && pairCost(active[i].1, orig[a[i]]) < costThreshold
  }

  /** A detection that no matching row names is left as it was. */
  lemma {:induction false} MatchesLeavesDetection(a: seq<int>, active: seq<(int, Track)>, orig: seq<Detection>, s0: MatchState,
                                                  pairCost: (Track, Detection) -> real, costThreshold: real, tailLength: int, j: int)
    requires |a| <= |active| && |s0.dets| == |orig| && tailLength >= 1
    requires forall i :: 0 <= i < |a| ==> a[i] == -1 || 0 <= a[i] < |orig|
    requires forall i :: 0 <= i < |active| ==> active[i].0 in s0.tracks
    requires 0 <= j < |orig|
    requires forall i :: 0 <= i < |a| && RowMatches(a, active, orig, pairCost, costThreshold, i) ==> a[i] != j
    ensures Matches(a, active, orig, s0, pairCost, costThreshold, tailLength).dets[j] == s0.dets[j]
    ensures j in Matches(a, active, orig, s0, pairCost, costThreshold, tailLength).taken <==> j in s0.taken
  {
    if |a| > 0 {
      var a' := a[..|a| - 1];
      assert forall i :: 0 <= i < |a'| ==> a'[i] == a[i];
      MatchesLeavesDetection(a', active, orig, s0, pairCost, costThreshold, tailLength, j);
    }
  }

  /** A track that no matching row names is left as it was. */
  lemma {:induction false} MatchesLeavesTrack(a: seq<int>, active: seq<(int, Track)>, orig: seq<Detection>, s0: MatchState,
                                              pairCost: (Track, Detection) -> real, costThreshold: real, tailLength: int, k: int)
    requires |a| <= |active| && |s0.dets| == |orig| && tailLength >= 1
    requires forall i :: 0 <= i < |a| ==> a[i] == -1 || 0 <= a[i] < |orig|
    requires forall i :: 0 <= i < |active| ==> active[i].0 in s0.tracks
    requires k in s0.tracks
    requires forall i :: 0 <= i < |a| && RowMatches(a, active, orig, pairCost, costThreshold, i) ==> active[i].0 != k
    ensures Matches(a, active, orig, s0, pairCost, costThreshold, tailLength).tracks[k] == s0.tracks[k]
  {
    if |a| > 0 {
      var a' := a[..|a| - 1];
      assert forall i :: 0 <= i < |a'| ==> a'[i] == a[i];
      MatchesLeavesTrack(a', active, orig, s0, pairCost, costThreshold, tailLength, k);
    }
  }

  /**
   * For an assignment that names no detection twice and active tracks with
   * distinct ids, a matching row gives its detection the track's id and the
   * track's tail, and moves its track (Age reset to 0) onto that detection.
   */
  lemma {:induction false} MatchesRow(a: seq<int>, active: seq<(int, Track)>, orig: seq<Detection>, s0: MatchState,
                                      pairCost: (Track, Detection) -> real, costThreshold: real, tailLength: int, i: int)
    requires |a| <= |active| && |s0.dets| == |orig| && tailLength >= 1
    requires forall i :: 0 <= i < |a| ==> a[i] == -1 || 0 <= a[i] < |orig|
    requires forall i1, i2 :: 0 <= i1 < i2 < |a| && a[i1] != -1 ==> a[i1] != a[i2]
    requires forall i1, i2 :: 0 <= i1 < i2 < |active| ==> active[i1].0 != active[i2].0
    requires forall i :: 0 <= i < |active| ==> active[i].0 in s0.tracks
    requires 0 <= i < |a| && RowMatches(a, active, orig, pairCost, costThreshold, i)
    ensures var r := Matches(a, active, orig, s0, pairCost, costThreshold, tailLength);
            var step := TrackStep(s0.tracks[active[i].0].(age := 0), s0.dets[a[i]].(id := Some(active[i].0)), tailLength);
            a[i] in r.taken && r.dets[a[i]] == step.0 && r.tracks[active[i].0] == step.1
  {
    var a' := a[..|a| - 1];
    assert forall i :: 0 <= i < |a'| ==> a'[i] == a[i];
    if i == |a| - 1 {
      MatchesLeavesDetection(a', active, orig, s0, pairCost, costThreshold, tailLength, a[i]);
      MatchesLeavesTrack(a', active, orig, s0, pairCost, costThreshold, tailLength, active[i].0);
    } else {
      MatchesRow(a', active, orig, s0, pairCost, costThreshold, tailLength, i);
    }
  }

  /** Only detections named by some row are added to the matched set. */
  lemma {:induction false} MatchesTaken(a: seq<int>, active: seq<(int, Track)>, orig: seq<Detection>, s0: MatchState,
                                        pairCost: (Track, Detection) -> real, costThreshold: real, tailLength: int)
    requires |a| <= |active| && |s0.dets| == |orig| && tailLength >= 1
    requires forall i :: 0 <= i < |a| ==> a[i] == -1 || 0 <= a[i] < |orig|
    requires forall i :: 0 <= i < |active| ==> active[i].0 in s0.tracks
    ensures forall j :: j in Matches(a, active, orig, s0, pairCost, costThreshold, tailLength).taken ==>
              j in s0.taken || exists i :: 0 <= i < |a| && a[i] == j && RowMatches(a, active, orig, pairCost, costThreshold, i)
  {
    if |a| > 0 {
      var a' := a[..|a| - 1];
      assert forall i :: 0 <= i < |a'| ==> a'[i] == a[i];
      MatchesTaken(a', active, orig, s0, pairCost, costThreshold, tailLength);
    }
  }

  /** What AddUntrackedObjects produces: the detections with their new ids, the new tracks, the counter. */
  datatype Admitted = Admitted(dets: seq<Detection>, created: map<int, Track>, nextId: int)

  /**
   * AddUntrackedObjects (and, with nothing taken, CreateInitialTracks):
   * each detection not in `taken`, in order, takes the pre-incremented
   * counter as its id and becomes a new track.
   */
  function Admit(dets: seq<Detection>, taken: set<int>, nextId: int): (r: Admitted)
    ensures |r.dets| == |dets| && r.nextId >= nextId
    ensures forall k :: k in r.created ==> nextId < k <= r.nextId
  {
    if |dets| == 0 then Admitted([], map[], nextId)
    else
      var s := Admit(dets[..|dets| - 1], taken, nextId);
      var d := dets[|dets| - 1];
      if |dets| - 1 in taken then Admitted(s.dets + [d], s.created, s.nextId)
      else
        var d' := d.(id := Some(s.nextId + 1));
        Admitted(s.dets + [d'], s.created[s.nextId + 1 := NewTrack(d')], s.nextId + 1)
  }

  /** Adding a key to the right operand of a map union adds it to the union. */
  lemma UnionUpdate<K, V>(a: map<K, V>, b: map<K, V>, k: K, v: V)
    ensures (a + b)[k := v] == a + b[k := v]
  {
  }

  /**
   * The state of the admission loops after `i` detections: the rest are
   * untouched, and the first `i`, the counter and the dictionary are what
   * `Admit` makes of them.
   */
  ghost predicate Admitting(dets: seq<Detection>, nextId: int, tracks: map<int, Track>, orig: seq<Detection>,
                            taken: set<int>, firstId: int, start: map<int, Track>, i: nat)
  {
    i <= |orig| == |dets| && dets[i..] == orig[i..] &&
    var adm := Admit(orig[..i], taken, firstId);
    dets[..i] == adm.dets && nextId == adm.nextId && tracks == start + adm.created
  }

  /** A taken detection leaves the loop's state as it was. */
  lemma SkipTaken(dets: seq<Detection>, nextId: int, tracks: map<int, Track>, orig: seq<Detection>,
                  taken: set<int>, firstId: int, start: map<int, Track>, i: nat)
    requires i < |dets| && i in taken && Admitting(dets, nextId, tracks, orig, taken, firstId, start, i)
    ensures Admitting(dets, nextId, tracks, orig, taken, firstId, start, i + 1)
  {
    AdmitPrefixStep(orig, taken, firstId, i);
    assert dets[..i + 1] == dets[..i] + [dets[i]];
  }

  /** Replacing element `i` leaves the prefix before it and the suffix after it alone. */
  lemma UpdateSplits<T>(pre: seq<T>, post: seq<T>, i: nat, x: T)
    requires i < |pre| && post == pre[i := x]
    ensures post[..i + 1] == pre[..i] + [x] && post[i + 1..] == pre[i + 1..]
  {
  }

  /** One more detection: Admit of a prefix extended by one element, in terms of Admit of the prefix. */
  lemma AdmitPrefixStep(dets: seq<Detection>, taken: set<int>, nextId: int, i: nat)
    requires i < |dets|
    ensures var s := Admit(dets[..i], taken, nextId);
            var a := Admit(dets[..i + 1], taken, nextId);
              if i in taken then a == Admitted(s.dets + [dets[i]], s.created, s.nextId)
              else a == Admitted(s.dets + [dets[i].(id := Some(s.nextId + 1))],
                                 s.created[s.nextId + 1 := NewTrack(dets[i].(id := Some(s.nextId + 1)))], s.nextId + 1)
  {
    assert dets[..i + 1][..i] == dets[..i];
  }

  /**
   * Ids come from a pre-incremented counter: taken detections are left
   * alone; every other one gets an id above the old counter, strictly
   * increasing along the list, and a new track of Age 0 with an empty tail
   * whose box is the detection.
   */
  lemma AdmitEffect(dets: seq<Detection>, taken: set<int>, nextId: int)
    ensures var r := Admit(dets, taken, nextId);
      (forall i :: 0 <= i < |dets| && i in taken ==> r.dets[i] == dets[i]) &&
      (forall i :: 0 <= i < |dets| && i !in taken ==>
         r.dets[i].id.Some? && r.dets[i] == dets[i].(id := r.dets[i].id) &&
         nextId < r.dets[i].id.value <= r.nextId &&
         r.dets[i].id.value in r.created && r.created[r.dets[i].id.value] == NewTrack(r.dets[i])) &&
      (forall i1, i2 :: 0 <= i1 < i2 < |dets| && i1 !in taken && i2 !in taken ==>
         r.dets[i1].id.Some? && r.dets[i2].id.Some? && r.dets[i1].id.value < r.dets[i2].id.value) &&
      (forall k :: k in r.created ==> r.created[k].box.id == Some(k) && r.created[k].age == 0 && r.created[k].tail == [])
  {
    AdmitKeepsTaken(dets, taken, nextId);
    AdmitNewIds(dets, taken, nextId);
    AdmitIdsIncrease(dets, taken, nextId);
    AdmitCreatedFresh(dets, taken, nextId);
  }

  lemma {:induction false} AdmitKeepsTaken(dets: seq<Detection>, taken: set<int>, nextId: int)
    ensures var r := Admit(dets, taken, nextId);
      forall i :: 0 <= i < |dets| && i in taken ==> r.dets[i] == dets[i]
  {
    if |dets| > 0 {
      AdmitKeepsTaken(dets[..|dets| - 1], taken, nextId);
    }
  }

  lemma {:induction false} AdmitNewIds(dets: seq<Detection>, taken: set<int>, nextId: int)
    ensures var r := Admit(dets, taken, nextId);
      forall i :: 0 <= i < |dets| && i !in taken ==>
        r.dets[i].id.Some? && r.dets[i] == dets[i].(id := r.dets[i].id) &&
        nextId < r.dets[i].id.value <= r.nextId &&
        r.dets[i].id.value in r.created && r.created[r.dets[i].id.value] == NewTrack(r.dets[i])
  {
    if |dets| > 0 {
      AdmitNewIds(dets[..|dets| - 1], taken, nextId);
    }
  }

  lemma {:induction false} AdmitIdsIncrease(dets: seq<Detection>, taken: set<int>, nextId: int)
    ensures var r := Admit(dets, taken, nextId);
      forall i1, i2 :: 0 <= i1 < i2 < |dets| && i1 !in taken && i2 !in taken ==>
        r.dets[i1].id.Some? && r.dets[i2].id.Some? && r.dets[i1].id.value < r.dets[i2].id.value
  {
    if |dets| > 0 {
      AdmitIdsIncrease(dets[..|dets| - 1], taken, nextId);
      AdmitNewIds(dets[..|dets| - 1], taken, nextId);
    }
  }

  lemma {:induction false} AdmitCreatedFresh(dets: seq<Detection>, taken: set<int>, nextId: int)
    ensures var r := Admit(dets, taken, nextId);
      forall k :: k in r.created ==> r.created[k].box.id == Some(k) && r.created[k].age == 0 && r.created[k].tail == []
  {
    if |dets| > 0 {
      AdmitCreatedFresh(dets[..|dets| - 1], taken, nextId);
    }
  }

  /** With nothing taken every detection gets a new id: nextId rises by the number of detections. */
  lemma {:induction false} AdmitAllCount(dets: seq<Detection>, nextId: int)
    ensures Admit(dets, {}, nextId).nextId == nextId + |dets|
  {
    if |dets| > 0 {
      AdmitAllCount(dets[..|dets| - 1], nextId);
    }
  }

  /** Aging keeps exactly the tracks whose incremented Age is still within maxAge. */
  lemma AgedBounded(tracks: map<int, Track>, maxAge: int)
    ensures forall k :: k in Aged(tracks, maxAge) <==> k in tracks && tracks[k].age < maxAge
    ensures forall k :: k in Aged(tracks, maxAge) ==> Aged(tracks, maxAge)[k].age <= maxAge
  {
  }

  /** Under the invariant every track is active, so the Age filter drops nothing. */
  lemma {:induction false} ActiveIsEveryTrack(order: seq<int>, tracks: map<int, Track>, maxAge: int)
    requires forall i :: 0 <= i < |order| ==> order[i] in tracks && tracks[order[i]].age <= maxAge
    ensures |Active(order, tracks, maxAge)| == |order|
    ensures forall i :: 0 <= i < |order| ==> Active(order, tracks, maxAge)[i].0 == order[i]
  {
    if |order| > 0 {
      ActiveIsEveryTrack(order[..|order| - 1], tracks, maxAge);
    }
  }

  /** The active tracks keep their order and carry distinct ids when the enumeration does. */
  lemma {:induction false} ActiveDistinct(order: seq<int>, tracks: map<int, Track>, maxAge: int)
    requires forall i :: 0 <= i < |order| ==> order[i] in tracks
    requires forall i1, i2 :: 0 <= i1 < i2 < |order| ==> order[i1] != order[i2]
    ensures forall i1, i2 :: 0 <= i1 < i2 < |Active(order, tracks, maxAge)| ==>
              Active(order, tracks, maxAge)[i1].0 != Active(order, tracks, maxAge)[i2].0
    ensures forall i :: 0 <= i < |Active(order, tracks, maxAge)| ==> Active(order, tracks, maxAge)[i].0 in order
  {
    if |order| > 0 {
      var order' := order[..|order| - 1];
      ActiveDistinct(order', tracks, maxAge);
      assert forall i :: 0 <= i < |Active(order', tracks, maxAge)| ==> Active(order', tracks, maxAge)[i].0 in order';
    }
  }

  /** The detections, the dictionary and the counter after an update. */
  datatype Frame = Frame(dets: seq<Detection>, tracks: map<int, Track>, nextId: int)

  /**
   * UpdateTracker on values, given the solver's assignment `a`: with no
   * detections only age; otherwise predict every track, match against the
   * active ones (or, when none is active, admit every detection), admit
   * the unmatched detections and age.
   */
  ghost function Update(dets: seq<Detection>, tracks: map<int, Track>, nextId: int, order: seq<int>, a: seq<int>,
                        pairCost: (Track, Detection) -> real, maxAge: int, costThreshold: real, tailLength: int): Frame
    requires tailLength >= 1
    requires forall i :: 0 <= i < |order| ==> order[i] in tracks
    requires |dets| > 0 && |Active(order, PredictAll(tracks), maxAge)| > 0 ==>
               Lapjv.IsAssignment(a, |Active(order, PredictAll(tracks), maxAge)|, |dets|)
  {
    if |dets| == 0 then Frame(dets, Aged(tracks, maxAge), nextId)
    else
      var predicted := PredictAll(tracks);
      var active := Active(order, predicted, maxAge);
      if |active| > 0 then
        var m := Matches(a, active, dets, MatchState(dets, predicted, {}), pairCost, costThreshold, tailLength);
        var adm := Admit(m.dets, m.taken, nextId);
        Frame(adm.dets, Aged(m.tracks + adm.created, maxAge), adm.nextId)
      else
        var adm := Admit(dets, {}, nextId);
        Frame(adm.dets, Aged(predicted + adm.created, maxAge), adm.nextId)
  }

  /** Each track is filed under its box's id, has a non-negative Age and a tail within its length. */
  ghost predicate Shaped(tracks: map<int, Track>, tailLength: int)
  {
    forall k :: k in tracks ==> tracks[k].box.id == Some(k) && tracks[k].age >= 0 && |tracks[k].tail| <= tailLength
  }

  /** Matching keeps every track filed under its own id with a bounded tail. */
  lemma {:induction false} MatchesShaped(a: seq<int>, active: seq<(int, Track)>, orig: seq<Detection>, s0: MatchState,
                                         pairCost: (Track, Detection) -> real, costThreshold: real, tailLength: int)
    requires |a| <= |active| && |s0.dets| == |orig| && tailLength >= 1
    requires forall i :: 0 <= i < |a| ==> a[i] == -1 || 0 <= a[i] < |orig|
    requires forall i :: 0 <= i < |active| ==> active[i].0 in s0.tracks
    requires Shaped(s0.tracks, tailLength)
    ensures Shaped(Matches(a, active, orig, s0, pairCost, costThreshold, tailLength).tracks, tailLength)
  {
    if |a| > 0 {
      var a' := a[..|a| - 1];
      assert forall i :: 0 <= i < |a'| ==> a'[i] == a[i];
      MatchesShaped(a', active, orig, s0, pairCost, costThreshold, tailLength);
      var s := Matches(a', active, orig, s0, pairCost, costThreshold, tailLength);
      var i := |a| - 1;
      if a[i] != -1 && pairCost(active[i].1, orig[a[i]]) < costThreshold {
        var key := active[i].0;
        var det := s.dets[a[i]].(id := Some(key));
        TailAddBounded(s.tracks[key].tail, tailLength, Centre(det.box));
      }
    }
  }

  /** UpdateTracker keeps the tracker invariant. */
  lemma UpdateValid(dets: seq<Detection>, tracks: map<int, Track>, nextId: int, order: seq<int>, a: seq<int>,
                    pairCost: (Track, Detection) -> real, maxAge: int, costThreshold: real, tailLength: int)
    requires ValidTracks(tracks, nextId, maxAge, tailLength) && Enumerates(order, tracks)
    requires |dets| > 0 && |Active(order, PredictAll(tracks), maxAge)| > 0 ==>
               Lapjv.IsAssignment(a, |Active(order, PredictAll(tracks), maxAge)|, |dets|)
    ensures var f := Update(dets, tracks, nextId, order, a, pairCost, maxAge, costThreshold, tailLength);
              ValidTracks(f.tracks, f.nextId, maxAge, tailLength)
  {
    if |dets| > 0 {
      var predicted := PredictAll(tracks);
      var active := Active(order, predicted, maxAge);
      if |active| > 0 {
        var s0 := MatchState(dets, predicted, {});
        MatchesShaped(a, active, dets, s0, pairCost, costThreshold, tailLength);
        var m := Matches(a, active, dets, s0, pairCost, costThreshold, tailLength);
        AdmitEffect(m.dets, m.taken, nextId);
      } else {
        AdmitEffect(dets, {}, nextId);
      }
    }
  }

  /**
   * What the matching phase starts from: an assignment of the active
   * tracks to the detections, active tracks with distinct ids, each the
   * dictionary's entry under its id.
   */
  ghost predicate MatchSetup(a: seq<int>, active: seq<(int, Track)>, dets: seq<Detection>, tracks: map<int, Track>)
  {
    Lapjv.IsAssignment(a, |active|, |dets|) &&
    (forall i1, i2 :: 0 <= i1 < |active| && 0 <= i2 < |active| && i1 != i2 ==> active[i1].0 != active[i2].0) &&
    (forall i :: 0 <= i < |active| ==> active[i].0 in tracks && active[i].1 == tracks[active[i].0])
  }

  /**
   * A matched detection carries the id of a track whose cost with it is
   * below the threshold, receives that track's tail, and the track follows it.
   */
  lemma MatchTaken(a: seq<int>, active: seq<(int, Track)>, dets: seq<Detection>, tracks: map<int, Track>,
                   pairCost: (Track, Detection) -> real, costThreshold: real, tailLength: int)
    requires tailLength >= 1 && MatchSetup(a, active, dets, tracks)
    ensures var m := Matches(a, active, dets, MatchState(dets, tracks, {}), pairCost, costThreshold, tailLength);
              forall j :: j in m.taken ==>
                0 <= j < |dets| && m.dets[j].id.Some? && m.dets[j].id.value in tracks &&
                (exists i :: 0 <= i < |active| && a[i] == j && active[i].0 == m.dets[j].id.value) &&
                pairCost(tracks[m.dets[j].id.value], dets[j]) < costThreshold &&
                m.dets[j] == dets[j].(id := m.dets[j].id, tail := Some(tracks[m.dets[j].id.value].tail)) &&
                m.tracks[m.dets[j].id.value] ==
                  TrackStep(tracks[m.dets[j].id.value].(age := 0), dets[j].(id := m.dets[j].id), tailLength).1
  {
    var s0 := MatchState(dets, tracks, {});
    var m := Matches(a, active, dets, s0, pairCost, costThreshold, tailLength);
    MatchesTaken(a, active, dets, s0, pairCost, costThreshold, tailLength);
    forall j | j in m.taken
      ensures 0 <= j < |dets| && m.dets[j].id.Some? && m.dets[j].id.value in tracks &&
              (exists i :: 0 <= i < |active| && a[i] == j && active[i].0 == m.dets[j].id.value) &&
              pairCost(tracks[m.dets[j].id.value], dets[j]) < costThreshold &&
              m.dets[j] == dets[j].(id := m.dets[j].id, tail := Some(tracks[m.dets[j].id.value].tail)) &&
              m.tracks[m.dets[j].id.value] ==
                TrackStep(tracks[m.dets[j].id.value].(age := 0), dets[j].(id := m.dets[j].id), tailLength).1
    {
      var i :| 0 <= i < |a| && a[i] == j && RowMatches(a, active, dets, pairCost, costThreshold, i);
      MatchesRow(a, active, dets, s0, pairCost, costThreshold, tailLength, i);
    }
  }

  /** A detection no row matched is left as it was. */
  lemma MatchUntaken(a: seq<int>, active: seq<(int, Track)>, dets: seq<Detection>, tracks: map<int, Track>,
                     pairCost: (Track, Detection) -> real, costThreshold: real, tailLength: int)
    requires tailLength >= 1 && MatchSetup(a, active, dets, tracks)
    ensures var m := Matches(a, active, dets, MatchState(dets, tracks, {}), pairCost, costThreshold, tailLength);
              forall j :: 0 <= j < |dets| && j !in m.taken ==> m.dets[j] == dets[j]
  {
    var s0 := MatchState(dets, tracks, {});
    var m := Matches(a, active, dets, s0, pairCost, costThreshold, tailLength);
    forall j | 0 <= j < |dets| && j !in m.taken
      ensures m.dets[j] == dets[j]
    {
      forall i | 0 <= i < |a| && RowMatches(a, active, dets, pairCost, costThreshold, i)
        ensures a[i] != j
      {
        MatchesRow(a, active, dets, s0, pairCost, costThreshold, tailLength, i);
      }
      MatchesLeavesDetection(a, active, dets, s0, pairCost, costThreshold, tailLength, j);
    }
  }

  /** Two matched detections never share a track. */
  lemma MatchDistinct(a: seq<int>, active: seq<(int, Track)>, dets: seq<Detection>, tracks: map<int, Track>,
                      pairCost: (Track, Detection) -> real, costThreshold: real, tailLength: int)
    requires tailLength >= 1 && MatchSetup(a, active, dets, tracks)
    ensures var m := Matches(a, active, dets, MatchState(dets, tracks, {}), pairCost, costThreshold, tailLength);
              forall j1, j2 :: 0 <= j1 < |dets| && 0 <= j2 < |dets| && j1 in m.taken && j2 in m.taken && j1 != j2 ==> m.dets[j1].id != m.dets[j2].id
  {
    MatchTaken(a, active, dets, tracks, pairCost, costThreshold, tailLength);
  }

  /** A track no matched detection names is left as it was. */
  lemma MatchUnclaimed(a: seq<int>, active: seq<(int, Track)>, dets: seq<Detection>, tracks: map<int, Track>,
                       pairCost: (Track, Detection) -> real, costThreshold: real, tailLength: int)
    requires tailLength >= 1 && MatchSetup(a, active, dets, tracks)
    ensures var m := Matches(a, active, dets, MatchState(dets, tracks, {}), pairCost, costThreshold, tailLength);
              forall k :: k in tracks && (forall j :: 0 <= j < |dets| && j in m.taken ==> m.dets[j].id != Some(k)) ==> m.tracks[k] == tracks[k]
  {
    var s0 := MatchState(dets, tracks, {});
    var m := Matches(a, active, dets, s0, pairCost, costThreshold, tailLength);
    forall k | k in tracks && (forall j :: 0 <= j < |dets| && j in m.taken ==> m.dets[j].id != Some(k))
      ensures m.tracks[k] == tracks[k]
    {
      forall i | 0 <= i < |a| && RowMatches(a, active, dets, pairCost, costThreshold, i)
        ensures active[i].0 != k
      {
        MatchesRow(a, active, dets, s0, pairCost, costThreshold, tailLength, i);
      }
      MatchesLeavesTrack(a, active, dets, s0, pairCost, costThreshold, tailLength, k);
    }
  }

  /**
   * Where a detection's id comes from after an update: either the id of a
   * track that took part in matching, whose predicted cost with the
   * detection is under the threshold and whose tail the detection now
   * holds, or a fresh id issued by this update, the detection otherwise
   * unchanged.
   */
  ghost predicate IdOrigin(d: Detection, orig: Detection, tracks: map<int, Track>, nextId: int, newNextId: int,
                           pairCost: (Track, Detection) -> real, maxAge: int, costThreshold: real)
  {
    d.id.Some? &&
    ((d.id.value in tracks && tracks[d.id.value].age <= maxAge &&
      pairCost(PredictAll(tracks)[d.id.value], orig) < costThreshold &&
      d == orig.(id := d.id, tail := Some(tracks[d.id.value].tail))) ||
     (nextId < d.id.value <= newNextId && d == orig.(id := d.id)))
  }

  /** The matching facts for the tracks as predicted and filtered. */
  lemma ActiveSetup(order: seq<int>, tracks: map<int, Track>, maxAge: int, a: seq<int>, dets: seq<Detection>)
    requires Enumerates(order, tracks)
    requires Lapjv.IsAssignment(a, |Active(order, PredictAll(tracks), maxAge)|, |dets|)
    ensures MatchSetup(a, Active(order, PredictAll(tracks), maxAge), dets, PredictAll(tracks))
  {
    ActiveDistinct(order, PredictAll(tracks), maxAge);
  }

  /**
   * After a non-empty update every detection carries an id, a matched
   * track's or a fresh one, no two detections share an id, and the counter
   * never goes down.
   */
  lemma UpdateIds(dets: seq<Detection>, tracks: map<int, Track>, nextId: int, order: seq<int>, a: seq<int>,
                  pairCost: (Track, Detection) -> real, maxAge: int, costThreshold: real, tailLength: int)
    requires ValidTracks(tracks, nextId, maxAge, tailLength) && Enumerates(order, tracks)
    requires |dets| > 0 && |Active(order, PredictAll(tracks), maxAge)| > 0 ==>
               Lapjv.IsAssignment(a, |Active(order, PredictAll(tracks), maxAge)|, |dets|)
    ensures var f := Update(dets, tracks, nextId, order, a, pairCost, maxAge, costThreshold, tailLength);
              |f.dets| == |dets| && f.nextId >= nextId &&
              (forall j :: 0 <= j < |dets| ==>
                 IdOrigin(f.dets[j], dets[j], tracks, nextId, f.nextId, pairCost, maxAge, costThreshold)) &&
              (forall j1, j2 :: 0 <= j1 < |dets| && 0 <= j2 < |dets| && j1 != j2 ==> f.dets[j1].id != f.dets[j2].id)
  {
    var f := Update(dets, tracks, nextId, order, a, pairCost, maxAge, costThreshold, tailLength);
    if |dets| > 0 {
      var predicted := PredictAll(tracks);
      var active := Active(order, predicted, maxAge);
      if |active| > 0 {
        ActiveSetup(order, tracks, maxAge, a, dets);
        MatchTaken(a, active, dets, predicted, pairCost, costThreshold, tailLength);
        MatchUntaken(a, active, dets, predicted, pairCost, costThreshold, tailLength);
        MatchDistinct(a, active, dets, predicted, pairCost, costThreshold, tailLength);
        var m := Matches(a, active, dets, MatchState(dets, predicted, {}), pairCost, costThreshold, tailLength);
        AdmitEffect(m.dets, m.taken, nextId);
        assert f.dets == Admit(m.dets, m.taken, nextId).dets;
        forall j | 0 <= j < |dets|
          ensures IdOrigin(f.dets[j], dets[j], tracks, nextId, f.nextId, pairCost, maxAge, costThreshold)
        {
          if j in m.taken {
            assert f.dets[j] == m.dets[j];
            assert m.dets[j].id.value in tracks;
          }
        }
        forall j1, j2 | 0 <= j1 < |dets| && 0 <= j2 < |dets| && j1 != j2
          ensures f.dets[j1].id != f.dets[j2].id
        {
          if j1 in m.taken && j2 !in m.taken {
            assert f.dets[j1].id.value <= nextId;
          } else if j1 !in m.taken && j2 in m.taken {
            assert f.dets[j2].id.value <= nextId;
          }
        }
      } else {
        AdmitEffect(dets, {}, nextId);
      }
    }
  }

  /**
   * After admission and aging, every detection names a track whose box is
   * that detection and whose Age is 1, provided each detection already
   * matched names a track of Age 0 holding it, under an id the counter has
   * passed.
   */
  lemma AdmitAgedBoxes(dets: seq<Detection>, taken: set<int>, tracks: map<int, Track>, nextId: int, maxAge: int, adm: Admitted)
    requires maxAge >= 1 && adm == Admit(dets, taken, nextId)
    requires forall j :: j in taken ==>
               0 <= j < |dets| && dets[j].id.Some? && dets[j].id.value in tracks &&
               tracks[dets[j].id.value].box == dets[j] && tracks[dets[j].id.value].age == 0 && dets[j].id.value <= nextId
    ensures forall j :: 0 <= j < |adm.dets| ==>
              adm.dets[j].id.Some? && adm.dets[j].id.value in Aged(tracks + adm.created, maxAge) &&
              Aged(tracks + adm.created, maxAge)[adm.dets[j].id.value].box == adm.dets[j] &&
              Aged(tracks + adm.created, maxAge)[adm.dets[j].id.value].age == 1
  {
    AdmitKeepsTaken(dets, taken, nextId);
    AdmitNewIds(dets, taken, nextId);
    forall j | 0 <= j < |adm.dets| && j in taken
      ensures (tracks + adm.created)[adm.dets[j].id.value] == tracks[adm.dets[j].id.value]
    {
      assert adm.dets[j].id.value !in adm.created;
    }
  }

  /**
   * With a positive maxAge, after a non-empty update every detection is
   * the box of the track under its id, and that track is one frame old.
   */
  lemma UpdateBoxes(dets: seq<Detection>, tracks: map<int, Track>, nextId: int, order: seq<int>, a: seq<int>,
                    pairCost: (Track, Detection) -> real, maxAge: int, costThreshold: real, tailLength: int)
    requires ValidTracks(tracks, nextId, maxAge, tailLength) && Enumerates(order, tracks)
    requires |dets| > 0 && |Active(order, PredictAll(tracks), maxAge)| > 0 ==>
               Lapjv.IsAssignment(a, |Active(order, PredictAll(tracks), maxAge)|, |dets|)
    requires maxAge >= 1 && |dets| > 0
    ensures var f := Update(dets, tracks, nextId, order, a, pairCost, maxAge, costThreshold, tailLength);
              forall j :: 0 <= j < |f.dets| ==>
                f.dets[j].id.Some? && f.dets[j].id.value in f.tracks &&
                f.tracks[f.dets[j].id.value].box == f.dets[j] && f.tracks[f.dets[j].id.value].age == 1
  {
    var predicted := PredictAll(tracks);
    var active := Active(order, predicted, maxAge);
    if |active| > 0 {
      ActiveSetup(order, tracks, maxAge, a, dets);
      MatchTaken(a, active, dets, predicted, pairCost, costThreshold, tailLength);
      var m := Matches(a, active, dets, MatchState(dets, predicted, {}), pairCost, costThreshold, tailLength);
      forall j | j in m.taken
        ensures 0 <= j < |m.dets| && m.dets[j].id.Some? && m.dets[j].id.value in m.tracks &&
                m.tracks[m.dets[j].id.value].box == m.dets[j] && m.tracks[m.dets[j].id.value].age == 0 &&
                m.dets[j].id.value <= nextId
      {
        var k := m.dets[j].id.value;
        assert k in tracks;
      }
      AdmitAgedBoxes(m.dets, m.taken, m.tracks, nextId, maxAge, Admit(m.dets, m.taken, nextId));
    } else {
      AdmitAgedBoxes(dets, {}, predicted, nextId, maxAge, Admit(dets, {}, nextId));
    }
  }

  /**
   * A track that no detection names after a non-empty update keeps its
   * box and tail, ages by one, and is evicted exactly when it passes maxAge.
   */
  lemma UpdateUnclaimed(dets: seq<Detection>, tracks: map<int, Track>, nextId: int, order: seq<int>, a: seq<int>,
                        pairCost: (Track, Detection) -> real, maxAge: int, costThreshold: real, tailLength: int, k: int)
    requires ValidTracks(tracks, nextId, maxAge, tailLength) && Enumerates(order, tracks)
    requires |dets| > 0 && |Active(order, PredictAll(tracks), maxAge)| > 0 ==>
               Lapjv.IsAssignment(a, |Active(order, PredictAll(tracks), maxAge)|, |dets|)
    requires k in tracks
    requires var f := Update(dets, tracks, nextId, order, a, pairCost, maxAge, costThreshold, tailLength);
             forall j :: 0 <= j < |f.dets| ==> f.dets[j].id != Some(k)
    ensures var f := Update(dets, tracks, nextId, order, a, pairCost, maxAge, costThreshold, tailLength);
              (k in f.tracks <==> tracks[k].age < maxAge) &&
              (k in f.tracks ==> f.tracks[k].age == tracks[k].age + 1 &&
                                 f.tracks[k].box == tracks[k].box && f.tracks[k].tail == tracks[k].tail)
  {
    var f := Update(dets, tracks, nextId, order, a, pairCost, maxAge, costThreshold, tailLength);
    var predicted := PredictAll(tracks);
    var active := Active(order, predicted, maxAge);
    if |dets| > 0 && |active| > 0 {
      ActiveSetup(order, tracks, maxAge, a, dets);
      MatchUnclaimed(a, active, dets, predicted, pairCost, costThreshold, tailLength);
      var m := Matches(a, active, dets, MatchState(dets, predicted, {}), pairCost, costThreshold, tailLength);
      var adm := Admit(m.dets, m.taken, nextId);
      AdmitEffect(m.dets, m.taken, nextId);
      assert f.dets == adm.dets && f.tracks == Aged(m.tracks + adm.created, maxAge);
      forall j | 0 <= j < |dets| && j in m.taken
        ensures m.dets[j].id != Some(k)
      {
        assert f.dets[j] == m.dets[j];
      }
      assert k !in adm.created;
      assert (m.tracks + adm.created)[k] == predicted[k];
    } else if |dets| > 0 {
      var adm := Admit(dets, {}, nextId);
      AdmitEffect(dets, {}, nextId);
      assert k !in adm.created;
      assert (predicted + adm.created)[k] == predicted[k];
    }
  }

  // ---------------------------------------------------------------------------
  // The tracker, updating its dictionary and counter in place
  // ---------------------------------------------------------------------------

  /** CalculateCostMatrix: one row per active track, one column per detection. */
  method CalculateCostMatrix(active: seq<(int, Track)>, detections: array<Detection>, pairCost: (Track, Detection) -> real)
    returns (costMatrix: array2<real>)
    ensures fresh(costMatrix)
    ensures costMatrix.Length0 == |active| && costMatrix.Length1 == detections.Length
    ensures forall i, j :: 0 <= i < |active| && 0 <= j < detections.Length ==>
              costMatrix[i, j] == pairCost(active[i].1, detections[j])
  {
    costMatrix := new real[|active|, detections.Length];
    for i := 0 to |active|
      invariant forall i', j :: 0 <= i' < i && 0 <= j < detections.Length ==>
                  costMatrix[i', j] == pairCost(active[i'].1, detections[j])
    {
      for j := 0 to detections.Length
        invariant forall i', j' :: 0 <= i' < i && 0 <= j' < detections.Length ==>
                    costMatrix[i', j'] == pairCost(active[i'].1, detections[j'])
        invariant forall j' :: 0 <= j' < j ==> costMatrix[i, j'] == pairCost(active[i].1, detections[j'])
      {
        costMatrix[i, j] := pairCost(active[i].1, detections[j]);
      }
    }
  }

  class SortTracker {
    var tracks: map<int, Track>
    var nextId: int
    const maxAge: int
    const costThreshold: real
    const tailLength: int

    ghost predicate Valid()
      reads this
    {
      ValidTracks(tracks, nextId, maxAge, tailLength)
    }

    /** The library's defaults are a cost threshold of 0.5, a maximum Age of 3 and a tail of 30 points. */
    constructor (costThreshold: real, maxAge: int, tailLength: int)
      requires tailLength >= 1
      ensures Valid() && tracks == map[] && nextId == 0
      ensures this.costThreshold == costThreshold && this.maxAge == maxAge && this.tailLength == tailLength
    {
      tracks := map[];
      nextId := 0;
      this.costThreshold := costThreshold;
      this.maxAge := maxAge;
      this.tailLength := tailLength;
    }

    /** The KalmanPredict loop over the dictionary's values. */
    method PredictTracks()
      modifies this
      ensures tracks == PredictAll(old(tracks)) && nextId == old(nextId)
    {
      ghost var start := tracks;
      var keys := tracks.Keys;
      while keys != {}
        invariant keys <= start.Keys && tracks.Keys == start.Keys && nextId == old(nextId)
        invariant forall k :: k in keys ==> tracks[k] == start[k]
        invariant forall k :: k in start && k !in keys ==> tracks[k] == start[k].(kalman := start[k].kalman + [Predict])
        decreases keys
      {
        assert exists x :: x in keys by {
          if forall x :: x !in keys {
            assert false;
          }
        }
        var k :| k in keys;
        tracks := tracks[k := tracks[k].(kalman := tracks[k].kalman + [Predict])];
        keys := keys - {k};
      }
      assert forall k :: k in tracks ==> tracks[k] == PredictAll(start)[k];
    }

    /** RemoveOldTrackedObjects: over a snapshot of the entries, increment Age and evict above maxAge. */
    method RemoveOldTrackedObjects()
      modifies this
      ensures tracks == Aged(old(tracks), maxAge) && nextId == old(nextId)
    {
      ghost var start := tracks;
      var keys := tracks.Keys;
      while keys != {}
        invariant keys <= start.Keys && nextId == old(nextId)
        invariant forall k :: k in tracks ==> k in start
        invariant forall k :: k in keys ==> k in tracks && tracks[k] == start[k]
        invariant forall k :: k in start && k !in keys ==>
                    (k in tracks <==> start[k].age + 1 <= maxAge) &&
                    (k in tracks ==> tracks[k] == start[k].(age := start[k].age + 1))
        decreases keys
      {
        assert exists x :: x in keys by {
          if forall x :: x !in keys {
            assert false;
          }
        }
        var k :| k in keys;
        var t := tracks[k].(age := tracks[k].age + 1);
        if t.age > maxAge {
          tracks := tracks - {k};
        } else {
          tracks := tracks[k := t];
        }
        keys := keys - {k};
      }
      assert forall k :: k in tracks <==> k in Aged(start, maxAge);
      assert forall k :: k in tracks ==> tracks[k] == Aged(start, maxAge)[k];
    }

    /**
     * MatchPredictedObjects: solve the assignment, then walk its rows; a
     * row whose detection is -1 or whose original cost is not below the
     * threshold is skipped. The ghost result is the solver's assignment.
     */
    method MatchPredictedObjects(detections: array<Detection>, active: seq<(int, Track)>, costMatrix: array2<real>,
                                 ghost pairCost: (Track, Detection) -> real)
      returns (r: Result<set<int>>, ghost a: seq<int>)
      requires tailLength >= 1
      requires costMatrix.Length0 == |active| && costMatrix.Length1 == detections.Length
      requires forall i, j :: 0 <= i < |active| && 0 <= j < detections.Length ==>
                 costMatrix[i, j] == pairCost(active[i].1, detections[j])
      requires forall i :: 0 <= i < |active| ==> active[i].0 in tracks
      modifies this, detections
      ensures nextId == old(nextId)
      ensures r.Err? ==> r.error == YoloDotNetError && tracks == old(tracks) && detections[..] == old(detections[..])
      ensures r.Ok? ==>
                Lapjv.IsAssignment(a, |active|, detections.Length) &&
                MatchState(detections[..], tracks, r.value) ==
                Matches(a, active, old(detections[..]), MatchState(old(detections[..]), old(tracks), {}),
                        pairCost, costThreshold, tailLength)
    {
      a := [];
      var assignment := Lapjv.Solve(costMatrix);
      if assignment.Failed? {
        return Err(YoloDotNetError), a;
      }
      var rows := assignment.value;
      a := rows[..];
      ghost var orig := detections[..];
      ghost var s0 := MatchState(orig, tracks, {});
      var taken: set<int> := {};
      for i := 0 to rows.Length
        invariant rows[..] == a && nextId == old(nextId)
        invariant MatchState(detections[..], tracks, taken) == Matches(a[..i], active, orig, s0, pairCost, costThreshold, tailLength)
      {
        assert a[..i + 1][..i] == a[..i];
        var key := active[i].0;
        var j := rows[i];
        if j != -1 {
          var cost := costMatrix[i, j];
          if cost < costThreshold {
            var step := TrackStep(tracks[key].(age := 0), detections[j].(id := Some(key)), tailLength);
            detections[j] := step.0;
            tracks := tracks[key := step.1];
            taken := taken + {j};
          }
        }
      }
      assert a[..rows.Length] == a;
      r := Ok(taken);
    }
  
    /**
     * AddUntrackedObjects: every detection whose index is not in `taken`
     * takes the pre-incremented counter as its id and starts a new track
     * under that id.
     */
    method AddUntrackedObjects(detections: array<Detection>, taken: set<int>)
      modifies this, detections
      ensures var adm := Admit(old(detections[..]), taken, old(nextId));
                detections[..] == adm.dets && nextId == adm.nextId && tracks == old(tracks) + adm.created
    {
      ghost var orig := detections[..];
      ghost var start := tracks;
      ghost var firstId := nextId;
      for i := 0 to detections.Length
        invariant Admitting(detections[..], nextId, tracks, orig, taken, firstId, start, i)
      {
        if i !in taken {
          StartTrack(detections, i, orig, taken, firstId, start);
        } else {
          SkipTaken(detections[..], nextId, tracks, orig, taken, firstId, start, i);
        }
      }
      assert orig[..detections.Length] == orig;
      assert detections[..detections.Length] == detections[..];
    }

    /** CreateInitialTracks: with no active track every detection starts a new track. */
    method CreateInitialTracks(detections: array<Detection>)
      modifies this, detections
      ensures var adm := Admit(old(detections[..]), {}, old(nextId));
                detections[..] == adm.dets && nextId == adm.nextId && tracks == old(tracks) + adm.created
    {
      ghost var orig := detections[..];
      ghost var start := tracks;
      ghost var firstId := nextId;
      for i := 0 to detections.Length
        invariant Admitting(detections[..], nextId, tracks, orig, {}, firstId, start, i)
      {
        StartTrack(detections, i, orig, {}, firstId, start);
      }
      assert orig[..detections.Length] == orig;
      assert detections[..detections.Length] == detections[..];
    }

    /**
     * The three statements both admission loops run for an untaken
     * detection: pre-increment the counter, stamp the detection with it, and
     * start a track under it. The ghost parameters carry the loop's state.
     */
    method StartTrack(detections: array<Detection>, i: nat, ghost orig: seq<Detection>, ghost taken: set<int>,
                      ghost firstId: int, ghost start: map<int, Track>)
      requires i < detections.Length && i !in taken
      requires Admitting(detections[..], nextId, tracks, orig, taken, firstId, start, i)
      modifies this, detections
      ensures Admitting(detections[..], nextId, tracks, orig, taken, firstId, start, i + 1)
    {
      AdmitPrefixStep(orig, taken, firstId, i);
      ghost var adm := Admit(orig[..i], taken, firstId);
      ghost var pre := detections[..];
      nextId := nextId + 1;
      var started := detections[i].(id := Some(nextId));
      detections[i] := started;
      UnionUpdate(start, adm.created, nextId, NewTrack(started));
      tracks := tracks[nextId := NewTrack(started)];
      UpdateSplits(pre, detections[..], i, started);
    }

    /**
     * UpdateTracker. `order` is the dictionary's enumeration order, which
     * decides the rows of the cost matrix; the ghost result is the solver's
     * assignment. A solver failure propagates after the predictions ran.
     */
    method UpdateTracker(detections: array<Detection>, order: seq<int>, pairCost: (Track, Detection) -> real)
      returns (r: Result<()>, ghost a: seq<int>)
      requires Valid() && Enumerates(order, tracks)
      modifies this, detections
      ensures Valid() && nextId >= old(nextId)
      ensures detections.Length == 0 ==>
                r.Ok? && tracks == Aged(old(tracks), maxAge) && nextId == old(nextId)
      ensures r.Err? ==>
                r.error == YoloDotNetError && detections[..] == old(detections[..]) &&
                tracks == PredictAll(old(tracks)) && nextId == old(nextId)
      ensures r.Ok? ==>
                (detections.Length > 0 && |Active(order, PredictAll(old(tracks)), maxAge)| > 0 ==>
                   Lapjv.IsAssignment(a, |Active(order, PredictAll(old(tracks)), maxAge)|, detections.Length)) &&
                Frame(detections[..], tracks, nextId) ==
                Update(old(detections[..]), old(tracks), old(nextId), order, a, pairCost, maxAge, costThreshold, tailLength)
    {
      a := [];
      if detections.Length == 0 {
        RemoveOldTrackedObjects();
        return Ok(()), a;
      }
      ghost var dets0 := detections[..];
      ghost var tracks0 := tracks;
      ghost var nextId0 := nextId;
      PredictTracks();
      var active := Active(order, tracks, maxAge);
      if |active| > 0 {
        var costMatrix := CalculateCostMatrix(active, detections, pairCost);
        var matched;
        matched, a := MatchPredictedObjects(detections, active, costMatrix, pairCost);
        if matched.Err? {
          return Err(matched.error), a;
        }
        AddUntrackedObjects(detections, matched.value);
      } else {
        CreateInitialTracks(detections);
      }
      RemoveOldTrackedObjects();
      UpdateValid(dets0, tracks0, nextId0, order, a, pairCost, maxAge, costThreshold, tailLength);
      UpdateIds(dets0, tracks0, nextId0, order, a, pairCost, maxAge, costThreshold, tailLength);
      r := Ok(());
    }
  }
}
