// What the output-tensor decoders share: how the image was resized for the
// model, the letterbox gains that map model coordinates back to the image,
// bounds-checked reads of the tensor and of the label table, and the result
// list a module clears and refills on every call.

module Decoding {
  import opened Common
  import opened Geometry
  import opened Models
  import opened Rows

  /** ImageResize: letterboxed to keep the aspect ratio, or stretched to the model's input size. */
  datatype ImageResize = Proportional | Stretched

  /** YoloOptions, shared by reference between the core and its modules; only the resize mode is modelled. */
  class YoloOptions {
    var imageResize: ImageResize

    constructor (imageResize: ImageResize)
      ensures this.imageResize == imageResize
    {
      this.imageResize := imageResize;
    }
  }

  /** What CalculateGain returns: the letterbox padding and the gains on each axis. */
  datatype Gain = Gain(xPad: real, yPad: real, xGain: real, yGain: real)

  /** The gains of an image with a positive size, which both divide and multiply coordinates. */
  type Gains = g: Gain | g.xGain > 0.0 && g.yGain > 0.0 witness Gain(0.0, 0.0, 1.0, 1.0)

  /** A read of the output tensor: IndexOutOfRangeException outside it. */
  function At(span: seq<real>, i: int): (r: Result<real>)
    ensures r.Ok? <==> 0 <= i < |span|
    ensures r.Ok? ==> r.value == span[i]
    ensures r.Err? ==> r.error == IndexOutOfRange
  {
    if 0 <= i < |span| then Ok(span[i]) else Err(IndexOutOfRange)
  }

  /** `Labels[(int)index]` for an index read from the tensor as a float. */
  function LabelAt(labels: seq<LabelModel>, index: real): (r: Result<LabelModel>)
    ensures r.Ok? <==> 0 <= Trunc(index) < |labels|
    ensures r.Ok? ==> r.value == labels[Trunc(index)]
    ensures r.Err? ==> r.error == IndexOutOfRange
  {
    var k := Trunc(index);
    if 0 <= k < |labels| then Ok(labels[k]) else Err(IndexOutOfRange)
  }

  /**
   * The corner rectangle of the end-to-end generations (V10 proportional,
   * V26), whose rows hold (x1, y1, x2, y2): proportional undoes the padding
   * and applies xGain to both axes, stretched divides by each axis's gain.
   */
  function CornerBox(resize: ImageResize, g: Gains, x: real, y: real, w: real, h: real): RectI
  {
    match resize
    case Proportional =>
      RectI(Trunc((x - g.xPad) * g.xGain), Trunc((y - g.yPad) * g.xGain),
            Trunc((w - g.xPad) * g.xGain), Trunc((h - g.yPad) * g.xGain))
    case Stretched =>
      RectI(Trunc(x / g.xGain), Trunc(y / g.yGain), Trunc(w / g.xGain), Trunc(h / g.yGain))
  }

  /** Math.Clamp(v, 0, extent - 1) throws ArgumentException in stretched mode for an image without pixels. */
  predicate ClampThrows(resize: ImageResize, width: int, height: int)
  {
    resize == Stretched && (width < 1 || height < 1)
  }

  /**
   * The box of the generations whose rows hold a centre and a size (V8 and
   * the legacy modules): proportional undoes the padding and applies xGain
   * to both axes with no clamp; stretched divides by each axis's gain and
   * clamps every corner into the image. Math.Clamp needs a width and a
   * height of at least 1 there.
   */
  function CentreBox(resize: ImageResize, g: Gains, width: int, height: int, x: real, y: real, w: real, h: real): (r: RectI)
    requires resize == Stretched ==> width >= 1 && height >= 1
    ensures resize == Stretched ==>
              0 <= r.left < width && 0 <= r.right < width && 0 <= r.top < height && 0 <= r.bottom < height
  {
    var halfW, halfH := w / 2.0, h / 2.0;
    match resize
    case Proportional =>
      RectI(Trunc((x - halfW - g.xPad) * g.xGain), Trunc((y - halfH - g.yPad) * g.xGain),
            Trunc((x + halfW - g.xPad) * g.xGain), Trunc((y + halfH - g.yPad) * g.xGain))
    case Stretched =>
      RectI(Clamp(Trunc((x - halfW - g.xPad) / g.xGain), 0, width - 1), Clamp(Trunc((y - halfH - g.yPad) / g.yGain), 0, height - 1),
            Clamp(Trunc((x + halfW - g.xPad) / g.xGain), 0, width - 1), Clamp(Trunc((y + halfH - g.yPad) / g.yGain), 0, height - 1))
  }

  /** The unscaled (model-space) box of a centre-and-size row: `(int)(x - w / 2)` and so on. */
  function CentredUnscaled(x: real, y: real, w: real, h: real): RectF
  {
    RectF(Trunc(x - w / 2.0) as real, Trunc(y - h / 2.0) as real, Trunc(x + w / 2.0) as real, Trunc(y + h / 2.0) as real)
  }

  /** `new SKRectI((int)x, (int)y, (int)w, (int)h)`, stored as the unscaled (model-space) box. */
  function TruncatedBox(x: real, y: real, w: real, h: real): RectF
  {
    RectF(Trunc(x) as real, Trunc(y) as real, Trunc(w) as real, Trunc(h) as real)
  }

  // The keypoint planes of the pose models whose rows follow the V8 layout:
  // after the four coordinate planes and one plane per label come three
  // planes per keypoint (x, y, confidence), each box in its own column.

  /** `(int)Math.Floor((double)Elements / Input.Channels) - labels`: the keypoint planes after the box and label planes. */
  function ChannelKeyPoints(elements: nat, inputChannels: Stride, labels: nat): int
  {
    elements / inputChannels - labels
  }

  /** Where keypoint j of a box sits, when its keypoints start at `offset`: three planes per keypoint. */
  function KeyPointOffset(offset: int, channels: nat, j: nat): int
  {
    offset + channels * 3 * j
  }

  /** The next keypoint sits three planes further on. */
  lemma KeyPointOffsetNext(offset: int, channels: nat, j: nat)
    ensures KeyPointOffset(offset, channels, j + 1) == KeyPointOffset(offset, channels, j) + channels * 3
  {
  }

  /** `(int)((v - pad) * gain)`: a model-space coordinate scaled back to the image. */
  function ScaleBack(v: real, pad: real, gain: real): int
  {
    Trunc((v - pad) * gain)
  }

  /** Where the keypoints of box o start: past the coordinate planes and the label planes, in its column. */
  function KeyPointsStart(o: ObjectResult, channels: nat, labels: nat): int
  {
    o.boxIndex + channels * (4 + labels)
  }

  /**
   * The `_results` list a module keeps between calls: ProcessImage clears it
   * and adds the new detections one by one, and hands back the same list.
   */
  class ResultList<T> {
    var items: seq<T>

    constructor ()
      ensures items == []
    {
      items := [];
    }

    /** `_results.Clear()` followed by one `_results.Add` per detection, in order. */
    method Refill(detections: seq<T>)
      modifies this
      ensures items == detections
    {
      items := [];
      for i := 0 to |detections|
        invariant items == detections[..i]
      {
        items := items + [detections[i]];
      }
    }
  }

  /**
   * The tail of ProcessImage in the modules that keep a result list: the
   * caller gets the module's own list, now holding exactly this call's
   * detections, so a list returned earlier changes under its holder.
   */
  method ProcessImage<T>(results: ResultList<T>, detections: seq<T>) returns (r: ResultList<T>)
    modifies results
    ensures r == results && r.items == detections
  {
    results.Refill(detections);
    r := results;
  }
}
