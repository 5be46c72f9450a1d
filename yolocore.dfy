// The helpers around the inference pipeline in its three generations
// (Core/YoloCore, Data/YoloCore, Data/YoloBase): pool sizing, pixel
// confidence, the model-type guard, initialisation, disposal and the
// dispatch on the model type.

module YoloCore {
  import opened Common
  import opened Models

  /** 2^e. */
  function Pow2(e: nat): (r: nat)
    ensures r >= 1
  {
    if e == 0 then 1 else 2 * Pow2(e - 1)
  }

  lemma {:induction false} Pow2Monotone(a: nat, b: nat)
    requires a <= b
    ensures Pow2(a) <= Pow2(b)
    decreases b
  {
    if a < b {
      Pow2Monotone(a, b - 1);
    }
  }

  /** ceil(log2 n): the least exponent whose power of two reaches n. */
  function CeilLog2(n: int): (e: nat)
    requires n >= 1
    ensures Pow2(e) >= n
    ensures e > 0 ==> Pow2(e - 1) < n
  {
    if n == 1 then 0 else 1 + CeilLog2((n + 1) / 2)
  }

  /** A request no larger than 2^k needs an exponent of at most k. */
  lemma {:induction false} CeilLog2AtMost(n: int, k: nat)
    requires 1 <= n <= Pow2(k)
    ensures CeilLog2(n) <= k
    decreases k
  {
    if n > 1 {
      CeilLog2AtMost((n + 1) / 2, k - 1);
    }
  }

  /**
   * Core/YoloCore.CalculateBufferPoolSize on a C# int: `1 << (int)ceil(log2 n)`.
   * For n >= 1 the exponent is ceil(log2 n). Math.Log2 of 0 is -Infinity and
   * of a negative number NaN; `(int)` turns those into int.MinValue (x86/x64)
   * or 0 (NaN, .NET 9), and C# masks a shift count to its low five bits, so
   * the shift is by 0 and the result 1. An exponent of 31 shifts the 1 into
   * the sign bit: int.MinValue.
   */
  function BufferPoolSize(bufferSize: int): (r: int)
    requires bufferSize < 0x8000_0000
    ensures bufferSize <= 0x4000_0000 ==> r >= 1 && r >= bufferSize
    ensures bufferSize > 0x4000_0000 ==> r == -0x8000_0000
  {
    if bufferSize <= 0 then 1
    else
      var e := CeilLog2(bufferSize);
      Pow2Bounds();
      if bufferSize <= Pow2(30) then
        CeilLog2AtMost(bufferSize, 30);
        if e == 31 then -0x8000_0000 else Pow2(e)
      else
        ExponentWraps(bufferSize);
        if e == 31 then -0x8000_0000 else Pow2(e)
  }

  /** 2^30 and 2^31 as the literals the contracts use. */
  lemma Pow2Bounds()
    ensures Pow2(30) == 0x4000_0000 && Pow2(31) == 0x8000_0000
  {
    assert Pow2(8) == 0x100;
    assert Pow2(16) == 0x1_0000;
    assert Pow2(24) == 0x100_0000;
  }

  /** A request above 2^30 and below 2^31 needs the exponent 31. */
  lemma ExponentWraps(n: int)
    requires 0x4000_0000 < n < 0x8000_0000
    ensures CeilLog2(n) == 31
  {
    Pow2Bounds();
    var e := CeilLog2(n);
    if e <= 30 {
      Pow2Monotone(e, 30);
    }
    if e >= 32 {
      Pow2Monotone(31, e - 1);
    }
  }

  /** An empty or negative request gets a pool of length 1. */
  lemma BufferPoolSizeOfNonPositive(bufferSize: int)
    requires bufferSize <= 0
    ensures BufferPoolSize(bufferSize) == 1
  {
  }

  /** The pool size is a power of two, reaches the request, and no smaller power of two does. */
  lemma BufferPoolSizeIsLeastPowerOfTwo(bufferSize: int, e: nat)
    requires 1 <= bufferSize <= 0x4000_0000
    ensures exists k: nat :: BufferPoolSize(bufferSize) == Pow2(k)
    ensures BufferPoolSize(bufferSize) >= bufferSize
    ensures Pow2(e) >= bufferSize ==> Pow2(e) >= BufferPoolSize(bufferSize)
  {
    var c := CeilLog2(bufferSize);
    Pow2Bounds();
    CeilLog2AtMost(bufferSize, 30);
    assert BufferPoolSize(bufferSize) == Pow2(c);
    if e < c {
      Pow2Monotone(e, c - 1);
    } else {
      Pow2Monotone(c, e);
    }
  }

  /** A pool request that is already a power of two is granted exactly. */
  lemma BufferPoolSizeOfPowerOfTwo(e: nat)
    requires Pow2(e) <= 0x4000_0000
    ensures BufferPoolSize(Pow2(e)) == Pow2(e)
  {
    BufferPoolSizeIsLeastPowerOfTwo(Pow2(e), e);
    var c := CeilLog2(Pow2(e));
    if c > e {
      Pow2Monotone(e, c - 1);
    } else if c < e {
      Pow2Monotone(c, e);
      assert Pow2(c) >= Pow2(e);
      Pow2Monotone(c + 1, e);
    }
  }

  /** Core/YoloCore.CalculatePixelConfidence: the byte read as a fraction of 255. */
  function PixelConfidenceCore(value: bv8): (r: real)
    ensures 0.0 <= r <= 1.0
    ensures r * 255.0 == value as int as real
  {
    (value as int as real) / 255.0
  }

  /** Data/YoloCore.CalculatePixelConfidence: one minus that fraction. */
  function PixelConfidenceData(value: bv8): (r: real)
    ensures 0.0 <= r <= 1.0
  {
    1.0 - (value as int as real) / 255.0
  }

  /** The two generations read a mask byte in opposite senses. */
  lemma PixelConfidenceComplement(value: bv8)
    ensures PixelConfidenceCore(value) + PixelConfidenceData(value) == 1.0
    ensures value == 0 ==> PixelConfidenceCore(value) == 0.0 && PixelConfidenceData(value) == 1.0
    ensures value == 255 ==> PixelConfidenceCore(value) == 1.0 && PixelConfidenceData(value) == 0.0
  {
  }

  /** The Core confidence grows with the byte, so the Data confidence shrinks. */
  lemma PixelConfidenceMonotone(a: bv8, b: bv8)
    requires a <= b
    ensures PixelConfidenceCore(a) <= PixelConfidenceCore(b)
    ensures PixelConfidenceData(a) >= PixelConfidenceData(b)
  {
  }

  /** Core/YoloCore.VerifyExpectedModelType: a YoloDotNetModelMismatchException iff the types differ. */
  function VerifyExpectedModelTypeCore(expected: ModelType, loaded: ModelType): (r: Result<()>)
    ensures r.Ok? <==> expected == loaded
    ensures r.Err? ==> r.error == ModelMismatch
  {
    if expected != loaded then Err(ModelMismatch) else Ok(())
  }

  /** Data/YoloCore and Data/YoloBase: the same test, raising a plain Exception. */
  function VerifyExpectedModelTypeData(expected: ModelType, loaded: ModelType): (r: Result<()>)
    ensures r.Ok? <==> expected == loaded
    ensures r.Err? ==> r.error == GeneralError
  {
    if expected != loaded then Err(GeneralError) else Ok(())
  }

  /** What InitializeYolo reads from the execution provider's ONNX properties. */
  datatype ProviderModel = ProviderModel(modelType: ModelType, inputShapeSize: int, outputChannels: int)

  /**
   * The Core generation's YoloCore: the loaded model and the sizes of the
   * array pools it creates (the pools themselves are not modelled).
   */
  class CoreYolo {
    var model: Option<ProviderModel>
    var tensorBufferSize: int
    var floatPoolArrayLength: int
    var resultPoolArrayLength: int

    constructor ()
      ensures model.None? && tensorBufferSize == 0
      ensures floatPoolArrayLength == 0 && resultPoolArrayLength == 0
    {
      model := None;
      tensorBufferSize := 0;
      floatPoolArrayLength := 0;
      resultPoolArrayLength := 0;
    }

    /**
     * InitializeYolo: without an execution provider it throws a
     * YoloDotNetModelException; otherwise it loads the model, checks the
     * model type against the loaded model's own type (which cannot fail)
     * and sizes the pools. ArrayPool.Create rejects a maximum length that is
     * not positive with an ArgumentOutOfRangeException, which a pool size
     * wrapped to int.MinValue is: the float pools for a tensor above 2^30
     * elements, the result pool for more than 2^30 output channels.
     */
    method InitializeYolo(provider: Option<ProviderModel>) returns (r: Result<()>)
      requires provider.Some? ==> provider.value.inputShapeSize < 0x8000_0000 && provider.value.outputChannels < 0x8000_0000
      modifies this
      ensures provider.None? ==> r == Err(ModelError) && unchanged(this)
      ensures provider.Some? ==> model == provider && tensorBufferSize == provider.value.inputShapeSize
      ensures provider.Some? ==>
                (r.Ok? <==> BufferPoolSize(provider.value.inputShapeSize) > 0 &&
                            BufferPoolSize(provider.value.outputChannels) > 0)
      ensures provider.Some? && r.Err? ==> r.error == ArgumentOutOfRange
      ensures provider.Some? ==>
                floatPoolArrayLength ==
                  (if BufferPoolSize(provider.value.inputShapeSize) > 0
                   then BufferPoolSize(provider.value.inputShapeSize) else old(floatPoolArrayLength))
      ensures resultPoolArrayLength == (if r.Ok? then BufferPoolSize(provider.value.outputChannels)
                                        else old(resultPoolArrayLength))
    {
      if provider.None? {
        return Err(ModelError);
      }
      var loaded := provider.value;
      model := provider;
      // The guard compares the loaded model's type with itself.
      var check := VerifyExpectedModelTypeCore(loaded.modelType, loaded.modelType);
      assert check.Ok?;
      tensorBufferSize := loaded.inputShapeSize;
      var floatSize := BufferPoolSize(tensorBufferSize);
      if floatSize <= 0 {
        return Err(ArgumentOutOfRange);
      }
      floatPoolArrayLength := floatSize;
      var resultSize := BufferPoolSize(loaded.outputChannels);
      if resultSize <= 0 {
        return Err(ArgumentOutOfRange);
      }
      resultPoolArrayLength := resultSize;
      r := Ok(());
    }
  }

  /**
   * The Data generation's YoloCore as far as disposal goes: the session,
   * binding and run options are released once, and the flag makes every
   * later call return at once.
   */
  class DataYolo {
    var isDisposed: bool
    var releasedResources: nat

    constructor ()
      ensures !isDisposed && releasedResources == 0
    {
      isDisposed := false;
      releasedResources := 0;
    }

    method Dispose()
      modifies this
      ensures isDisposed
      ensures releasedResources == if old(isDisposed) then old(releasedResources) else old(releasedResources) + 1
    {
      if isDisposed {
        return;
      }
      releasedResources := releasedResources + 1;
      isDisposed := true;
    }
  }

  /** Disposing twice releases the resources once. */
  method DisposeTwice(y: DataYolo)
    requires !y.isDisposed
    modifies y
    ensures y.isDisposed && y.releasedResources == old(y.releasedResources) + 1
  {
    y.Dispose();
    y.Dispose();
  }

  /** The work Data/YoloBase.InvokeInferenceType selects. */
  datatype Inference =
    | Classify(numberOfClasses: int)
    | DetectObjects
    | Segment
    | EstimatePose
    | DetectOrientedObjects

  /**
   * InvokeInferenceType: one branch per model type; for classification the
   * confidence argument, truncated to an int, is the number of classes to
   * return. Any other value of the enum throws NotSupportedException.
   */
  function InvokeInferenceType(modelType: ModelType, confidence: real): (r: Result<Inference>)
    ensures modelType.UndefinedType? <==> r == Err(NotSupported)
    ensures modelType == Classification ==> r == Ok(Classify(Trunc(confidence)))
    ensures modelType == ObjectDetection ==> r == Ok(DetectObjects)
    ensures modelType == Segmentation ==> r == Ok(Segment)
    ensures modelType == PoseEstimation ==> r == Ok(EstimatePose)
    ensures modelType == ObbDetection ==> r == Ok(DetectOrientedObjects)
  {
    match modelType
    case Classification => Ok(Classify(Trunc(confidence)))
    case ObjectDetection => Ok(DetectObjects)
    case Segmentation => Ok(Segment)
    case PoseEstimation => Ok(EstimatePose)
    case ObbDetection => Ok(DetectOrientedObjects)
    case UndefinedType(_) => Err(NotSupported)
  }
}
