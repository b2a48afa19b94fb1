# zipkin-go trace samplers

A Dafny model of the three trace samplers of zipkin-go. A sampler is a
predicate over the low 64 bits of a trace id. It decides whether a trace is
recorded:

- `NewBoundarySampler(rate, salt)` (module `BoundarySampling`, `boundary.dfy`)
  is stateless. It records an id when the id plus the salt, wrapping at 2^64,
  lies below a 64-bit boundary derived from the rate. Rate 0 records nothing
  and rate 1 records everything. Any other rate must lie in [0.0001, 1].
- `NewCountingSampler(rate)` (module `CountingSampling`, `counting.dfy`) is a
  class. It holds a precomputed pattern of 100 decisions with exactly
  round(rate·100) true ones, plus a call counter. Each call returns the current
  slot, ignores the id, and moves the counter on modulo 100. Rates must be 0 or
  lie in [0.01, 1].
- `NewModuloSampler(mod)` (module `ModuloSampling`, `modulo.dfy`) records an id
  exactly when `id % mod == 0`, for `mod >= 1`.

`sampling.dfy` holds the shared types: Go's `uint64` and `int64` ranges, the
construction `Result`, and the `RateError` each constructor returns.

Rates are fixed-point integers. The boundary sampler counts parts per ten
thousand, so 100 is 0.01 and 999 is written 9990000. The counting sampler
counts parts per thousand, so 9 is 0.009 and 1001 is 1.001.

The tests pin the boundary only at rate 0.01, where it must be
`0x028f5c28f5c28f60`: sample_test.go:40-41 require `0x028f5c28f5c28f5f` to be
sampled and `0x028f5c28f5c28f60` not. The model explains that value by reading
the rate as a Go float64. The decimal rate is rounded to the nearest binary64
double, ties to even (`NearestDouble`). That double is scaled by 2^64 and
truncated, as a conversion to `uint64` truncates (`Threshold`). The double
nearest 0.01, times 2^64, is exactly `0x028f5c28f5c28f60`. An exact
floor(rate·2^64) would be `0x028f5c28f5c28f5c` at rate 0.01 and would not
sample `0x028f5c28f5c28f5f`, which sample_test.go:40 requires
(`ExactBoundaryMissesVector`). `Threshold` proves that the float boundary stays
within 1025 of the exact one for every rate.

The samplers' implementation file is not part of this model. The behaviour
modelled is the one the assertions of sample_test.go pin down. Where they leave
room, the model makes its own choices: id and salt are combined by wraparound
addition, and a counting rate that is not a whole percentage is rounded half
up. Both choices are listed under "Left out".

## Model

| member | source | states |
|---|---|---|
| `Sampling.AsUnsigned` | sample_test.go:29 | The `int64` salt read as `uint64`: unchanged when non-negative, plus 2^64 when negative |
| `BoundarySampling.NewBoundarySampler` | sample_test.go:45-55 | Construction fails exactly when the rate is outside {0} ∪ [0.0001, 1], with an error that carries the rate and the wording "rate should be 0.0 or between 0.0001 and 1: was "; a rate strictly between 0 and 1 gives the sampler with that rate's boundary and the salt as `uint64` |
| `BoundarySampling.Sample` | sample_test.go:56 | The decision of a sampler: with a boundary, the id is sampled exactly when id + salt lies below the boundary or, after wrapping past 2^64, below 2^64 + boundary; its behaviour per rate is stated by NeverAndAlways, OnePercentVectors and SampledSetsNested |
| `BoundarySampling.Binade` | sample_test.go:38-41 | The exponent that brings rate/10000 into [1/2, 1): 10000 ≤ 2·rate·2^e < 20000 |
| `BoundarySampling.RoundHalfEven` | sample_test.go:38-41 | a/b rounded to the nearest integer (off by at most half of b), a tie going to the even neighbour |
| `BoundarySampling.NearestDouble` | sample_test.go:38-41 | The double nearest to the rate: a 53-bit significand within half a unit in the last place of rate/10000 |
| `BoundarySampling.Threshold` | sample_test.go:38-43 | The boundary fits in 64 bits and lies within 1025 of the exact rate·2^64 |
| `BoundarySampling.Combine` | sample_test.go:42 | id and salt are combined by addition that wraps around at 2^64 |
| `BoundarySampling.NeverAndAlways` | sample_test.go:34-36 | Rate 0 samples no id and rate 1 samples every id, for every salt |
| `BoundarySampling.OutOfRangeRatesRejected` | sample_test.go:35-37 | Rates 999 and -42 are refused with an error carrying the rate |
| `BoundarySampling.OnePercentThreshold` | sample_test.go:38-41 | At rate 0.01 the boundary is exactly `0x028f5c28f5c28f60` |
| `BoundarySampling.OnePercentVectors` | sample_test.go:38-41 | At rate 0.01 with salt 0, `0x028f5c28f5c28f5f` is sampled; `0x028f5c28f5c28f60`, `0xa000000000000000` and `0xffffffffffffffff` are not |
| `BoundarySampling.SaltedAndHighRateVectors` | sample_test.go:42-43 | id 1 with salt `0x0fffffffffffffff` at rate 0.01 is not sampled; id 999 at rate 0.99 is sampled |
| `BoundarySampling.XorMixingAgreesOnSaltedVector` | sample_test.go:42 | Combining id 1 and that salt by exclusive or also lands above the 0.01 boundary, so the vector does not decide between the two combinations |
| `BoundarySampling.ExactBoundaryMissesVector` | sample_test.go:40 | The exact floor(0.01·2^64) is `0x028f5c28f5c28f5c`, and below it `0x028f5c28f5c28f5f` would not be sampled |
| `BoundarySampling.ThresholdIncreasing` | sample_test.go:38-43 | A higher rate has a strictly higher boundary |
| `BoundarySampling.SampledSetsNested` | sample_test.go:33-44 | With the same salt, an id sampled at one valid rate is sampled at every higher valid rate |
| `CountingSampling.OutOf100` | sample_test.go:96 | The true decisions per 100 calls: at most 100, and the nearest integer to rate/10 (halves up) |
| `CountingSampling.CheckRate` | sample_test.go:79-93 | Validation fails exactly for rates outside {0} ∪ [0.01, 1], with an error carrying the rate and the wording "rate should be 0.0 or between 0.01 and 1: was "; otherwise it gives the rounded count |
| `CountingSampling.OutOfRangeRatesRejected` | sample_test.go:80-93 | Rates 0.009 and 1.001 are refused with an error carrying the rate |
| `CountingSampling.EvenPattern` | sample_test.go:94-97 | A pattern of 100 decisions with exactly n true ones; every prefix of length j holds floor(j·n/100) of them |
| `CountingSampling.RollingWindow` | sample_test.go:100-105 | Any 100 consecutive calls, whatever slot they start from, yield exactly the pattern's number of true decisions |
| `CountingSampling.WholeCycles` | sample_test.go:100-105 | k·100 consecutive calls yield exactly k times the pattern's count |
| `CountingSampling.CountingSampler.constructor` | sample_test.go:97 | A sampler at slot 0 whose pattern has exactly n true decisions out of 100 |
| `CountingSampling.CountingSampler.Sample` | sample_test.go:101 | Returns the current slot's decision whatever the id, then advances the counter modulo 100; the pattern count is kept |
| `CountingSampling.NewCountingSampler` | sample_test.go:79-97 | Fails exactly for invalid rates, with the rate in the error; otherwise gives a fresh sampler at slot 0 with OutOf100(rate) true decisions per 100 |
| `CountingSampling.CountSampled` | sample_test.go:100-104 | Counts the true decisions of repeated calls with one id; for a multiple of 100 calls the count is calls/100 times the quota |
| `CountingSampling.ThousandCalls` | sample_test.go:94-108 | A fresh sampler at n/100, called 1000 times with the same id, samples exactly 10·n times |
| `ModuloSampling.NewModuloSampler` | sample_test.go:116 | Construction never fails and gives `NewModuloSampler(mod) == ModuloSampler(mod)`, which samples exactly the ids that are multiples of mod; ExactCount states its counts |
| `ModuloSampling.Sample` | sample_test.go:123 | An id is sampled exactly when it is a multiple of mod: id == mod·(id / mod) |
| `ModuloSampling.OnlyFirstOfBlock` | sample_test.go:122-126 | Of the mod ids that start at a multiple of mod, only the first is sampled |
| `ModuloSampling.ExactCount` | sample_test.go:114-130 | Exactly k of the ids in [0, mod·k) are sampled |
| `ModuloSampling.CountSampled` | sample_test.go:118-128 | Counts the sampled ids below max one at a time; when max is a multiple of mod the count is max/mod |

## Left out

- The statistical test at sample_test.go:63-77 is left out. It draws random ids and only bounds the count loosely, so it states no deterministic property.
- Rates are fixed-point, not float64. A boundary rate finer than 0.0001 and a counting rate finer than 0.001 cannot be expressed. Floating-point rounding is modelled only for the boundary sampler, where the test vectors depend on it.
- CountingSampling.OutOf100: rounds a rate that is not a whole percentage half up on the exact decimal value. It does not model float error at exact halves, which the tests never exercise.
- The six-decimal `%f` formatting of the rejected rate in the error text is left out. `RateError` carries the fixed-point rate, and `Wording` gives the fixed text in front of it; `NewBoundarySampler` and `CheckRate` state that text for their errors.
- BoundarySampling.Combine: uses wraparound addition. The tests do not tell it apart from exclusive or, as `XorMixingAgreesOnSaltedVector` shows.
- CountingSampling.EvenPattern: the order of the true decisions is one even spread. Only their number per 100 slots is what the tests observe, and no proof about the sampler depends on the order.
- The lock around the counting sampler's counter is left out. Calls are modelled one at a time, with no concurrency.
- The random seed and clock of the modulo test (sample_test.go:112, 117) are left out. `ExactCount` quantifies over every k instead.
- A modulus of 0 is excluded by the `Modulus` type. It is a caller error that the tests never reach.
