// One tracked object: the bounded queue of its recent centre points
// (TailTrack) and the object that ties the queue, the last detection and the
// Kalman filter together (TrackedObject). The Kalman filter's arithmetic is
// not modelled; the filter is the log of the calls made on it.

module Tracking {
  import opened Common
  import opened Geometry
  import opened Models

  /** A call on the Kalman filter: construction at a centre, Predict, or Update with a measured centre. */
  datatype KalmanStep = Start(x: int, y: int) | Predict | Correct(x: int, y: int)

  // ---------------------------------------------------------------------------
  // TailTrack
  // ---------------------------------------------------------------------------

  /**
   * TailTrack.AddTailPoint on the queue's contents: a full queue first
   * dequeues its oldest point; dequeuing an empty queue (possible only when
   * the maximum length is 0 or less) throws InvalidOperationException.
   */
  function TailAdd(positions: seq<Point>, maxLength: int, p: Point): (r: Result<seq<Point>>)
    ensures r.Err? <==> |positions| == 0 && maxLength <= 0
    ensures r.Err? ==> r.error == InvalidOperation
    ensures r.Ok? ==> |r.value| >= 1 && r.value[|r.value| - 1] == p
    ensures r.Ok? ==> |r.value| <= maxLength || |r.value| == |positions|
  {
    if |positions| >= maxLength then
      if |positions| == 0 then Err(InvalidOperation) else Ok(positions[1..] + [p])
    else
      Ok(positions + [p])
  }

  /** The queue after a successful AddTailPoint, for a positive maximum length. */
  function TailPush(positions: seq<Point>, maxLength: int, p: Point): (r: seq<Point>)
    requires maxLength >= 1
    ensures TailAdd(positions, maxLength, p) == Ok(r)
  {
    if |positions| >= maxLength then positions[1..] + [p] else positions + [p]
  }

  /**
   * With a positive maximum length, adding never fails, the new point is
   * last, a queue within bounds stays within bounds, a full queue drops
   * exactly its oldest point and a queue with room grows by one.
   */
  lemma TailAddBounded(positions: seq<Point>, maxLength: int, p: Point)
    requires maxLength >= 1 && |positions| <= maxLength
    ensures TailAdd(positions, maxLength, p).Ok?
    ensures var q := TailAdd(positions, maxLength, p).value;
              |q| <= maxLength && q[|q| - 1] == p &&
              (|positions| == maxLength ==> q == positions[1..] + [p]) &&
              (|positions| < maxLength ==> q == positions + [p] && |q| == |positions| + 1)
  {
  }

  /** With a maximum length of 0 or less the first AddTailPoint throws. */
  lemma TailAddEmptyFails(maxLength: int, p: Point)
    requires maxLength <= 0
    ensures TailAdd([], maxLength, p) == Err(InvalidOperation)
  {
  }

  /** The queue keeps the most recent points: after any adds it is a suffix of everything added. */
  lemma {:induction false} TailAddKeepsSuffix(positions: seq<Point>, maxLength: int, added: seq<Point>)
    requires maxLength >= 1 && |positions| <= maxLength
    ensures var q := TailAddAll(positions, maxLength, added);
              |q| <= maxLength && (|positions + added| <= maxLength ==> q == positions + added) &&
              q == (positions + added)[|positions + added| - |q|..]
    decreases |added|
  {
    if |added| > 0 {
      var last := added[|added| - 1];
      var before := added[..|added| - 1];
      TailAddKeepsSuffix(positions, maxLength, before);
      var q0 := TailAddAll(positions, maxLength, before);
      assert positions + added == (positions + before) + [last];
      if |q0| < maxLength {
        assert |q0| == |positions + before| by {
          if |positions + before| > maxLength {
            assert |q0| <= maxLength;
            TailAddAllFull(positions, maxLength, before);
          }
        }
      }
    }
  }

  /** Once the queue has been filled it stays full. */
  lemma {:induction false} TailAddAllFull(positions: seq<Point>, maxLength: int, added: seq<Point>)
    requires maxLength >= 1 && |positions| <= maxLength
    ensures |TailAddAll(positions, maxLength, added)| == Min(|positions| + |added|, maxLength)
    decreases |added|
  {
    if |added| > 0 {
      TailAddAllFull(positions, maxLength, added[..|added| - 1]);
    }
  }

  /** The queue after adding every point of `added` in turn. */
  function TailAddAll(positions: seq<Point>, maxLength: int, added: seq<Point>): seq<Point>
    requires maxLength >= 1
  {
    if |added| == 0 then positions
    else TailPush(TailAddAll(positions, maxLength, added[..|added| - 1]), maxLength, added[|added| - 1])
  }

  /** TailTrack: the queue and its maximum length. */
  class TailTrack {
    const maxLength: int
    var positions: seq<Point>

    /** A negative capacity makes the Queue constructor throw; that case is left to the caller. */
    constructor (maxLength: int)
      requires maxLength >= 0
      ensures this.maxLength == maxLength && positions == []
    {
      this.maxLength := maxLength;
      positions := [];
    }

    /** GetTail: a copy of the queue, oldest point first. */
    method GetTail() returns (tail: seq<Point>)
      ensures tail == positions
    {
      tail := positions;
    }

    method AddTailPoint(p: Point) returns (r: Result<()>)
      modifies this
      ensures TailAdd(old(positions), maxLength, p).Ok? ==>
                r.Ok? && positions == TailAdd(old(positions), maxLength, p).value
      ensures TailAdd(old(positions), maxLength, p).Err? ==>
                r == Err(InvalidOperation) && positions == old(positions)
    {
      if |positions| >= maxLength {
        if |positions| == 0 {
          return Err(InvalidOperation);
        }
        positions := positions[1..];
      }
      positions := positions + [p];
      r := Ok(());
    }
  }

  // ---------------------------------------------------------------------------
  // TrackedObject
  // ---------------------------------------------------------------------------

  /**
   * The state of one TrackedObject: its last detection, its Age, the calls
   * made on its Kalman filter and the contents of its tail.
   */
  datatype Track = Track(box: Detection, age: int, kalman: seq<KalmanStep>, tail: seq<Point>)

  /** The TrackedObject constructor: Age 0, the detection as its box, a filter started at the box centre, an empty tail. */
  function NewTrack(det: Detection): (t: Track)
    ensures t.age == 0 && t.box == det && t.tail == []
    ensures t.kalman == [Start(det.box.MidX(), det.box.MidY())]
  {
    Track(det, 0, [Start(det.box.MidX(), det.box.MidY())], [])
  }

  /**
   * TrackBoundingBox for a positive tail length: the detection receives the
   * tail as it was before this call, becomes the track's box, its centre is
   * appended to the tail and fed to the filter.
   */
  function TrackStep(t: Track, det: Detection, tailLength: int): (r: (Detection, Track))
    requires tailLength >= 1
    ensures r.0 == det.(tail := Some(t.tail)) && r.1.box == r.0 && r.1.age == t.age
    ensures r.1.kalman == t.kalman + [Correct(Centre(det.box).x, Centre(det.box).y)]
    ensures |r.1.tail| >= 1 && r.1.tail[|r.1.tail| - 1] == Centre(det.box)
    ensures |t.tail| <= tailLength ==> |r.1.tail| <= tailLength
  {
    var shown := det.(tail := Some(t.tail));
    var c := Centre(det.box);
    (shown, Track(shown, t.age, t.kalman + [Correct(c.x, c.y)], TailPush(t.tail, tailLength, c)))
  }

  /**
   * What a TrackStep does: the detection keeps everything but its tail,
   * which is the previous tail; the stored box is that detection; the tail
   * ends with the detection's centre (which the snapshot handed out does not
   * hold as its newest point) and stays within its length; the filter is
   * updated with exactly that centre.
   */
  lemma TrackStepEffect(t: Track, det: Detection, tailLength: int)
    requires tailLength >= 1 && |t.tail| <= tailLength
    ensures var (shown, t') := TrackStep(t, det, tailLength);
              shown == det.(tail := Some(t.tail)) && t'.box == shown && t'.age == t.age &&
              |t'.tail| <= tailLength && t'.tail[|t'.tail| - 1] == Centre(det.box) &&
              t'.kalman == t.kalman + [Correct(det.box.MidX(), det.box.MidY())]
  {
    TailAddBounded(t.tail, tailLength, Centre(det.box));
  }

  /** TrackedObject as a class whose fields its methods update in place. */
  class TrackedObject {
    var box: Detection
    var age: int
    var kalman: seq<KalmanStep>
    const tailTracker: TailTrack

    constructor (det: Detection, tailLength: int)
      requires tailLength >= 0
      ensures box == det && age == 0 && kalman == [Start(det.box.MidX(), det.box.MidY())]
      ensures fresh(tailTracker) && tailTracker.maxLength == tailLength && tailTracker.positions == []
    {
      box := det;
      age := 0;
      kalman := [Start(det.box.MidX(), det.box.MidY())];
      tailTracker := new TailTrack(tailLength);
    }

    /** The state as the tracker sees it. */
    function State(): Track
      reads this, tailTracker
    {
      Track(box, age, kalman, tailTracker.positions)
    }

    /**
     * TrackBoundingBox: returns the detection with its Tail set. When the
     * tail's length is 0 or less the queue throws after the box and the
     * detection's tail have been set, and the filter is not updated.
     */
    method TrackBoundingBox(det: Detection) returns (r: Result<Detection>)
      modifies this, tailTracker
      ensures tailTracker.maxLength >= 1 ==>
                r.Ok? && (r.value, State()) == TrackStep(old(State()), det, tailTracker.maxLength)
      ensures tailTracker.maxLength < 1 && old(tailTracker.positions) == [] ==>
                r == Err(InvalidOperation) && box == det.(tail := Some([])) && kalman == old(kalman)
    {
      var shown := det.(tail := Some(tailTracker.positions));
      box := shown;
      var c := Centre(det.box);
      var added := tailTracker.AddTailPoint(c);
      if added.Err? {
        return Err(added.error);
      }
      kalman := kalman + [Correct(c.x, c.y)];
      r := Ok(shown);
    }

    method KalmanPredict()
      modifies this
      ensures kalman == old(kalman) + [Predict]
      ensures box == old(box) && age == old(age)
    {
      kalman := kalman + [Predict];
    }
  }
}
