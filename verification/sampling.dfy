/** Types shared by the three samplers: the 64-bit integer ranges of the
    Go signatures, the construction result, and the rate errors. */
module Sampling {

  /** 2^64: the size of the trace-id space. */
  const TWO64: int := 0x1_0000_0000_0000_0000

  /** Go's uint64: trace ids and the boundary. */
  type U64 = x: int | 0 <= x < 0x1_0000_0000_0000_0000

  /** Go's int64: the boundary sampler's salt. */
  type I64 = x: int | -0x8000_0000_0000_0000 <= x < 0x8000_0000_0000_0000

  /** The conversion uint64(x) of a Go int64: the same 64 bits read as unsigned. */
  function AsUnsigned(x: I64): (u: U64)
    ensures x >= 0 ==> u == x
    ensures x < 0 ==> u == x + TWO64
  {
    x % TWO64
  }

  /** A constructor either yields a usable sampler or an error, never both. */
  datatype Result<T, E> = Success(value: T) | Failure(error: E)

  /** The construction errors; each carries the rejected rate in the fixed-point
      unit of its sampler (parts per ten thousand, parts per thousand). */
  datatype RateError =
    | BoundaryRateError(boundaryRate: int)
    | CountingRateError(countingRate: int)
  {
    /** The error text up to the formatted rate, which is not modelled. */
    function Wording(): string
    {
      match this
      case BoundaryRateError(_) => "rate should be 0.0 or between 0.0001 and 1: was "
      case CountingRateError(_) => "rate should be 0.0 or between 0.01 and 1: was "
    }
  }
}
