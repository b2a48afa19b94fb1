/** NewBoundarySampler(rate, salt): a stateless sampler that records an id
    exactly when the id, combined with the salt, lies below a 64-bit boundary
    derived from the rate.

    Rates are fixed-point here, in parts per ten thousand (100 is 0.01,
    10000 is 1.0), which still expresses the out-of-range rates 999 and -42.
    The boundary is modelled as the double nearest to the decimal rate, times
    2^64, truncated as a conversion to uint64 truncates: reading the rate as a
    Go float64 is what gives the boundary the rate 0.01 test vectors require. */
module BoundarySampling {
  import opened Sampling

  /** Fixed-point unit of the rate: PerUnit stands for 1.0. */
  const PerUnit: int := 10000

  /** 2^53: the significand of a binary64 double has 53 bits. */
  const TWO53: int := 0x20_0000_0000_0000

  /** The rates construction accepts: exactly 0, or 0.0001 up to and including 1. */
  predicate ValidRate(rate: int)
  {
    rate == 0 || 1 <= rate <= PerUnit
  }

  function Pow2(n: nat): (p: nat)
    ensures p >= 1
  {
    if n == 0 then 1 else 2 * Pow2(n - 1)
  }

  /** The number of doublings that bring rate / PerUnit into [1/2, 1): the
      binade of the double nearest to the rate. */
  function Binade(rate: int): (e: nat)
    requires 1 <= rate < PerUnit
    ensures PerUnit <= 2 * (rate * Pow2(e)) < 2 * PerUnit
    decreases PerUnit - rate
  {
    if 2 * rate >= PerUnit then 0
    else
      var e := Binade(2 * rate);
      assert rate * Pow2(e + 1) == 2 * rate * Pow2(e);
      e + 1
  }

  /** Floor division by a positive divisor brackets the dividend. */
  lemma FloorBrackets(a: nat, p: int)
    requires p >= 1
    ensures (a / p) * p <= a < (a / p) * p + p
  {
  }

  /** a / b rounded to the nearest integer, ties to even (IEEE 754 rounding). */
  function RoundHalfEven(a: nat, b: nat): (q: nat)
    requires b > 0
    ensures 2 * (q * b - a) <= b && 2 * (a - q * b) <= b
    ensures (2 * (q * b - a) == b || 2 * (a - q * b) == b) ==> q % 2 == 0
  {
    var q0 := a / b;
    FloorBrackets(a, b);
    var rest := a - q0 * b;
    if 2 * rest < b then
      q0
    else
      var up := q0 + 1;
      assert up * b - a == b - rest by {
        assert up * b == q0 * b + b;
      }
      if 2 * rest > b || q0 % 2 == 1 then up else q0
  }

  /** A positive binary64 double below 1: significand / (2^53 * 2^exponent). */
  datatype Double = Double(significand: nat, exponent: nat)

  /** rate / PerUnit rounded to the nearest double, as the Go compiler rounds
      a decimal constant such as 0.01. Rounding may carry the significand up
      to 2^53, which is still a double (a power of two). */
  function NearestDouble(rate: int): (d: Double)
    requires 1 <= rate < PerUnit
    ensures TWO53 / 2 <= d.significand <= TWO53
    ensures PerUnit <= 2 * (rate * Pow2(d.exponent)) < 2 * PerUnit
    ensures 2 * (d.significand * PerUnit - rate * Pow2(d.exponent) * TWO53) <= PerUnit
    ensures 2 * (rate * Pow2(d.exponent) * TWO53 - d.significand * PerUnit) <= PerUnit
  {
    var e := Binade(rate);
    Double(RoundHalfEven(rate * Pow2(e) * TWO53, PerUnit), e)
  }

  /** From p * d bounded to d bounded, for a positive factor p. */
  lemma DivideOutScale(p: int, d: int)
    requires p >= 1
    requires -10240000 - PerUnit * p < p * d <= 10240000
    ensures -10250000 < d <= 10240000
  {
  }

  /** Truncating m * 2^11 / p, where m / (2^53 * p) is within half a unit of
      the last place of rate / PerUnit, stays within 1025 of rate * 2^64 / PerUnit. */
  lemma TruncationError(m: int, p: int, x: int, rate: int, t: int)
    requires p >= 1
    requires x == rate * p
    requires t * p <= m * 2048 < t * p + p
    requires 2 * (m * PerUnit - x * TWO53) <= PerUnit && 2 * (x * TWO53 - m * PerUnit) <= PerUnit
    ensures -10250000 < PerUnit * t - rate * TWO64 <= 10240000
  {
    var d := PerUnit * t - rate * TWO64;
    var tp := t * p;
    assert p * d == PerUnit * tp - 2048 * TWO53 * x;
    DivideOutScale(p, d);
  }

  /** The boundary of a rate strictly between 0 and 1: the double nearest to the
      rate, times 2^64, truncated. It fits in 64 bits and lies within 1025 of
      the exact rate * 2^64. */
  function Threshold(rate: int): (b: U64)
    requires 1 <= rate < PerUnit
    ensures -10250000 < PerUnit * b - rate * TWO64 <= 10240000
  {
    var d := NearestDouble(rate);
    var p := Pow2(d.exponent);
    var t := d.significand * 2048 / p;
    FloorBrackets(d.significand * 2048, p);
    TruncationError(d.significand, p, rate * p, rate, t);
    t
  }

  /** The decision predicate a successful construction returns. */
  datatype BoundarySampler = NeverSample | AlwaysSample | Below(boundary: U64, salt: U64)

  /** How id and salt are combined: addition that wraps around at 2^64. */
  function Combine(id: U64, salt: U64): (c: U64)
    ensures c == id + salt || c == id + salt - TWO64
  {
    (id + salt) % TWO64
  }

  /** The sampling decision for one trace id. */
  function Sample(s: BoundarySampler, id: U64): (sampled: bool)
    ensures s.Below? ==> (sampled <==> id + s.salt < s.boundary || TWO64 <= id + s.salt < TWO64 + s.boundary)
  {
    match s
    case NeverSample => false
    case AlwaysSample => true
    case Below(boundary, salt) => Combine(id, salt) < boundary
  }

  /** Construction validates the rate before anything else; rate 0 and rate 1
      bypass the boundary. */
  function NewBoundarySampler(rate: int, salt: I64): (r: Result<BoundarySampler, RateError>)
    ensures r.Failure? <==> !ValidRate(rate)
    ensures r.Failure? ==> r.error == BoundaryRateError(rate)
    ensures r.Failure? ==> r.error.Wording() == "rate should be 0.0 or between 0.0001 and 1: was "
    ensures r.Success? && rate != 0 && rate != PerUnit ==> r.value == Below(Threshold(rate), AsUnsigned(salt))
  {
    if rate == 0 then Success(NeverSample)
    else if rate == PerUnit then Success(AlwaysSample)
    else if rate < 1 || rate > PerUnit then Failure(BoundaryRateError(rate))
    else Success(Below(Threshold(rate), AsUnsigned(salt)))
  }

  /** Rate 0 samples no id and rate 1 samples every id, whatever the salt. */
  lemma NeverAndAlways(salt: I64, id: U64)
    ensures NewBoundarySampler(0, salt).Success? && !Sample(NewBoundarySampler(0, salt).value, id)
    ensures NewBoundarySampler(PerUnit, salt).Success? && Sample(NewBoundarySampler(PerUnit, salt).value, id)
  {
  }

  /** The rates 999 and -42 are refused, and the error carries the rate. */
  lemma OutOfRangeRatesRejected(salt: I64)
    ensures NewBoundarySampler(999 * PerUnit, salt) == Failure(BoundaryRateError(9990000))
    ensures NewBoundarySampler(-42 * PerUnit, salt) == Failure(BoundaryRateError(-420000))
  {
  }

  /** At rate 0.01 the boundary is 0x028f5c28f5c28f60: 0.01 as a double is
      0x147ae147ae147b / 2^59, and times 2^64 that is exact. */
  lemma OnePercentThreshold()
    ensures Threshold(100) == 0x028f_5c28_f5c2_8f60
  {
    assert Binade(100) == 6;
    assert Pow2(6) == 64;
    assert NearestDouble(100).significand == 0x14_7ae1_47ae_147b;
  }

  /** The four salt-free vectors at rate 0.01: the boundary is strict and ids
      with the top bit set are not sampled. */
  lemma OnePercentVectors()
    ensures NewBoundarySampler(100, 0).Success?
    ensures !Sample(NewBoundarySampler(100, 0).value, 0xffff_ffff_ffff_ffff)
    ensures !Sample(NewBoundarySampler(100, 0).value, 0xa000_0000_0000_0000)
    ensures Sample(NewBoundarySampler(100, 0).value, 0x028f_5c28_f5c2_8f5f)
    ensures !Sample(NewBoundarySampler(100, 0).value, 0x028f_5c28_f5c2_8f60)
  {
    OnePercentThreshold();
  }

  /** A salted id at rate 0.01 that is not sampled, and id 999 at rate 0.99. */
  lemma SaltedAndHighRateVectors()
    ensures NewBoundarySampler(100, 0x0fff_ffff_ffff_ffff).Success?
    ensures !Sample(NewBoundarySampler(100, 0x0fff_ffff_ffff_ffff).value, 1)
    ensures NewBoundarySampler(9900, 0).Success?
    ensures Sample(NewBoundarySampler(9900, 0).value, 999)
  {
    OnePercentThreshold();
  }

  /** The salted vector does not tell addition from exclusive or: combined by
      xor, id 1 and that salt also land above the 0.01 boundary. */
  lemma XorMixingAgreesOnSaltedVector()
    ensures ((1 as bv64) ^ (0x0fff_ffff_ffff_ffff as bv64)) as int >= Threshold(100)
  {
    OnePercentThreshold();
  }

  /** The exact floor(0.01 * 2^64) is 0x028f5c28f5c28f5c; a boundary computed
      that way would not sample 0x028f5c28f5c28f5f. */
  lemma ExactBoundaryMissesVector()
    ensures 100 * TWO64 / PerUnit == 0x028f_5c28_f5c2_8f5c
    ensures !(0x028f_5c28_f5c2_8f5f < 100 * TWO64 / PerUnit)
  {
  }

  /** A higher rate has a strictly higher boundary. */
  lemma ThresholdIncreasing(r1: int, r2: int)
    requires 1 <= r1 < r2 < PerUnit
    ensures Threshold(r1) < Threshold(r2)
  {
    assert r2 * TWO64 >= r1 * TWO64 + TWO64;
  }

  /** Raising the rate only adds ids: with the same salt, an id sampled at one
      valid rate is sampled at every higher valid rate. */
  lemma SampledSetsNested(r1: int, r2: int, salt: I64, id: U64)
    requires ValidRate(r1) && ValidRate(r2) && r1 <= r2
    ensures Sample(NewBoundarySampler(r1, salt).value, id) ==> Sample(NewBoundarySampler(r2, salt).value, id)
  {
    if 1 <= r1 < r2 < PerUnit {
      ThresholdIncreasing(r1, r2);
    }
  }
}
