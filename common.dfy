// Shared vocabulary of the YoloDotNet model: optional values, the exception
// kinds the library throws, and the integer semantics of C# that the
// arithmetic in the library relies on.

module Common {

  datatype Option<T> = None | Some(value: T)

  /** The exception kinds the library raises, one constructor per .NET type. */
  datatype Error =
    | YoloDotNetError        // YoloDotNetException
    | ModelMismatch          // YoloDotNetModelMismatchException
    | ModelError             // YoloDotNetModelException
    | VideoError             // YoloDotNetVideoException
    | ArgumentError          // ArgumentException
    | ArgumentNull           // ArgumentNullException
    | ArgumentOutOfRange     // ArgumentOutOfRangeException
    | InvalidOperation       // InvalidOperationException (empty queue)
    | IndexOutOfRange        // IndexOutOfRangeException
    | NotSupported           // NotSupportedException
    | NotImplemented         // NotImplementedException
    | NullReference          // NullReferenceException
    | JsonError              // JsonException
    | FormatError            // FormatException from int.Parse / float.Parse
    | DuplicateKey           // ArgumentException from ToDictionary on a repeated key
    | Overflow               // OverflowException (an array of negative length)
    | DivideByZero           // DivideByZeroException
    | KeyNotFound            // KeyNotFoundException from a dictionary indexer
    | GeneralError           // plain System.Exception

  datatype Result<T> = Ok(value: T) | Err(error: Error)

  function Max(a: int, b: int): int { if a < b then b else a }
  function Min(a: int, b: int): int { if a < b then a else b }
  function MaxReal(a: real, b: real): real { if a < b then b else a }
  function MinReal(a: real, b: real): real { if a < b then a else b }
  function AbsReal(x: real): real { if x < 0.0 then -x else x }

  /** C# `(int)x` on a float: truncation toward zero (range overflow is not modelled). */
  function Trunc(x: real): (r: int)
    ensures x >= 0.0 ==> r as real <= x < r as real + 1.0
    ensures x < 0.0 ==> r as real - 1.0 < x <= r as real
  {
    if x >= 0.0 then x.Floor else -((-x).Floor)
  }

  /** C# integer `/` by a positive divisor: the quotient is truncated toward zero. */
  function TruncDiv(a: int, b: int): int
    requires b > 0
  {
    if a >= 0 then a / b else -((-a) / b)
  }

  /** C# integer `%` by a positive divisor: the remainder takes the sign of the dividend. */
  function TruncMod(a: int, b: int): (m: int)
    requires b > 0
    ensures a >= 0 ==> 0 <= m < b
    ensures a < 0 ==> -b < m <= 0
  {
    if a >= 0 then a % b else -((-a) % b)
  }

  /** Math.Clamp(value, lo, hi) for lo <= hi (it throws otherwise). */
  function Clamp(value: int, lo: int, hi: int): (r: int)
    requires lo <= hi
    ensures lo <= r <= hi
    ensures lo <= value <= hi ==> r == value
  {
    if value < lo then lo else if value > hi then hi else value
  }
}
