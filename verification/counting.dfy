/** NewCountingSampler(rate): a stateful sampler that ignores the trace id and
    answers from a precomputed pattern of 100 decisions, one per call, cycling
    through it. The pattern holds exactly round(rate * 100) true decisions, so
    every 100 consecutive calls record exactly that many traces.

    Rates are fixed-point here, in parts per thousand (10 is 0.01, 1000 is
    1.0), which still expresses the rejected rates 0.009 and 1.001. */
module CountingSampling {
  import opened Sampling

  /** Fixed-point unit of the rate: PerMille stands for 1.0. */
  const PerMille: int := 1000

  /** The length of the decision pattern. */
  const Slots: int := 100

  /** The rates construction accepts: exactly 0, or 0.01 up to and including 1. */
  predicate ValidRate(rate: int)
  {
    rate == 0 || 10 <= rate <= PerMille
  }

  /** The number of true decisions per 100 calls: the rate in hundredths,
      rounded to the nearest integer, halves up. */
  function OutOf100(rate: int): (n: nat)
    requires ValidRate(rate)
    ensures n <= Slots
    ensures rate - 5 < 10 * n <= rate + 5
  {
    (rate + 5) / 10
  }

  /** Validation of the rate: the decisions per 100 calls, or the error that
      carries the rejected rate. */
  function CheckRate(rate: int): (r: Result<nat, RateError>)
    ensures r.Failure? <==> !ValidRate(rate)
    ensures r.Failure? ==> r.error == CountingRateError(rate)
    ensures r.Failure? ==> r.error.Wording() == "rate should be 0.0 or between 0.01 and 1: was "
    ensures r.Success? ==> r.value <= Slots && rate - 5 < 10 * r.value <= rate + 5
  {
    if ValidRate(rate) then Success(OutOf100(rate)) else Failure(CountingRateError(rate))
  }

  /** The number of true decisions in a sequence. */
  function Count(s: seq<bool>): (c: nat)
    ensures c <= |s|
  {
    if s == [] then 0 else (if s[0] then 1 else 0) + Count(s[1..])
  }

  lemma {:induction false} CountConcat(a: seq<bool>, b: seq<bool>)
    ensures Count(a + b) == Count(a) + Count(b)
  {
    if a == [] {
      assert a + b == b;
    } else {
      assert (a + b)[1..] == a[1..] + b;
      CountConcat(a[1..], b);
    }
  }

  /** Consecutive multiples of n / 100 differ by at most one. */
  lemma StepAtMostOne(i: nat, n: nat)
    requires n <= Slots
    ensures i * n / Slots <= (i + 1) * n / Slots <= i * n / Slots + 1
  {
    assert (i + 1) * n == i * n + n;
  }

  /** A pattern of 100 decisions with n of them true, spread evenly: the first
      j decisions hold floor(j * n / 100) true ones, for every j. */
  method EvenPattern(n: nat) returns (pattern: seq<bool>)
    requires n <= Slots
    ensures |pattern| == Slots
    ensures forall j :: 0 <= j <= Slots ==> Count(pattern[..j]) == j * n / Slots
    ensures Count(pattern) == n
  {
    pattern := [];
    var i := 0;
    while i < Slots
      invariant 0 <= i <= Slots && |pattern| == i
      invariant forall j :: 0 <= j <= i ==> Count(pattern[..j]) == j * n / Slots
    {
      var on := i * n / Slots < (i + 1) * n / Slots;
      StepAtMostOne(i, n);
      assert pattern[..i] == pattern;
      CountConcat(pattern, [on]);
      assert forall j :: 0 <= j <= i ==> (pattern + [on])[..j] == pattern[..j];
      assert (pattern + [on])[..i + 1] == pattern + [on];
      pattern := pattern + [on];
      i := i + 1;
    }
    assert pattern[..Slots] == pattern;
  }

  /** The slot reached from x: x % 100 is r whenever x = 100 * q + r with r a slot. */
  lemma SlotOf(x: int, q: int, r: int)
    requires x == q * Slots + r && 0 <= r < Slots
    ensures x % Slots == r
  {
  }

  /** The number of true decisions in `calls` consecutive calls that start at
      slot `start` and wrap around the pattern. */
  function Window(pattern: seq<bool>, start: nat, calls: nat): (found: nat)
    requires |pattern| == Slots && start < Slots
    decreases calls
  {
    if calls == 0 then 0
    else (if pattern[start] then 1 else 0) + Window(pattern, (start + 1) % Slots, calls - 1)
  }

  lemma {:induction false} WindowSplit(pattern: seq<bool>, start: nat, a: nat, b: nat)
    requires |pattern| == Slots && start < Slots
    ensures Window(pattern, start, a + b) == Window(pattern, start, a) + Window(pattern, (start + a) % Slots, b)
    decreases a
  {
    if a > 0 {
      var next := (start + 1) % Slots;
      var q, r := (start + a) / Slots, (start + a) % Slots;
      SlotOf(start + a, q, r);
      if start + 1 < Slots {
        SlotOf(start + 1, 0, start + 1);
        SlotOf(next + (a - 1), q, r);
      } else {
        SlotOf(start + 1, 1, 0);
        SlotOf(next + (a - 1), q - 1, r);
      }
      WindowSplit(pattern, next, a - 1, b);
      assert a - 1 + b == a + b - 1;
    }
  }

  /** Calls that do not wrap around count a slice of the pattern. */
  lemma {:induction false} WindowWithinPattern(pattern: seq<bool>, start: nat, calls: nat)
    requires |pattern| == Slots && start + calls <= Slots && start < Slots
    ensures Window(pattern, start, calls) == Count(pattern[start..start + calls])
    decreases calls
  {
    if calls > 0 {
      if start + 1 < Slots {
        WindowWithinPattern(pattern, start + 1, calls - 1);
      }
      assert pattern[start..start + calls][1..] == pattern[start + 1..start + calls];
    }
  }

  /** Any 100 consecutive calls, from whichever slot they start, yield exactly
      the pattern's number of true decisions. */
  lemma RollingWindow(pattern: seq<bool>, start: nat)
    requires |pattern| == Slots && start < Slots
    ensures Window(pattern, start, Slots) == Count(pattern)
  {
    var tail := Slots - start;
    WindowSplit(pattern, start, tail, start);
    SlotOf(start + tail, 1, 0);
    WindowWithinPattern(pattern, start, tail);
    WindowWithinPattern(pattern, 0, start);
    assert pattern[start..start + tail] == pattern[start..];
    assert pattern[0..start] == pattern[..start];
    assert pattern == pattern[..start] + pattern[start..];
    CountConcat(pattern[..start], pattern[start..]);
  }

  /** k full cycles of calls yield exactly k times the pattern's count. */
  lemma {:induction false} WholeCycles(pattern: seq<bool>, start: nat, k: nat)
    requires |pattern| == Slots && start < Slots
    ensures Window(pattern, start, k * Slots) == k * Count(pattern)
  {
    if k > 0 {
      var rest := (k - 1) * Slots;
      var c := Count(pattern);
      assert k * Slots == Slots + rest;
      WindowSplit(pattern, start, Slots, rest);
      SlotOf(start + Slots, 1, start);
      RollingWindow(pattern, start);
      WholeCycles(pattern, start, k - 1);
      assert Window(pattern, start, rest) == (k - 1) * c;
      assert k * c == c + (k - 1) * c;
    }
  }

  /** A number of calls that is a multiple of 100 yields that many cycles'
      worth of true decisions. */
  lemma CallsInCycles(pattern: seq<bool>, start: nat, calls: nat)
    requires |pattern| == Slots && start < Slots && calls % Slots == 0
    ensures Window(pattern, start, calls) == calls / Slots * Count(pattern)
  {
    var k := calls / Slots;
    assert k * Slots == calls;
    WholeCycles(pattern, start, k);
  }

  /** A single call yields its slot's decision. */
  lemma SingleCall(pattern: seq<bool>, slot: nat)
    requires |pattern| == Slots && slot < Slots
    ensures Window(pattern, slot, 1) == if pattern[slot] then 1 else 0
  {
  }

  /** The closure NewCountingSampler returns, with the call position it
      advances. */
  class CountingSampler {
    /** How many of every 100 consecutive decisions are true. */
    const outOf100: nat
    /** The precomputed decisions, one per slot. */
    const pattern: seq<bool>
    /** The slot the next call reads. */
    var counter: nat

    ghost predicate Valid()
      reads this
    {
      outOf100 <= Slots && |pattern| == Slots && Count(pattern) == outOf100 && counter < Slots
    }

    constructor (n: nat)
      requires n <= Slots
      ensures Valid() && outOf100 == n && counter == 0
    {
      var p := EvenPattern(n);
      outOf100, pattern, counter := n, p, 0;
    }

    /** One sampling decision: the current slot, whatever the id; the position
        then moves on, back to slot 0 after slot 99. */
    method Sample(id: U64) returns (sampled: bool)
      requires Valid()
      modifies this
      ensures Valid()
      ensures sampled == pattern[old(counter)]
      ensures counter == (old(counter) + 1) % Slots
    {
      sampled := pattern[counter];
      if counter + 1 == Slots {
        SlotOf(counter + 1, 1, 0);
        counter := 0;
      } else {
        SlotOf(counter + 1, 0, counter + 1);
        counter := counter + 1;
      }
    }
  }

  /** Construction: a sampler at the start of its pattern, or the rate error. */
  method NewCountingSampler(rate: int) returns (r: Result<CountingSampler, RateError>)
    ensures r.Failure? <==> !ValidRate(rate)
    ensures r.Failure? ==> r.error == CountingRateError(rate)
    ensures r.Success? ==> fresh(r.value) && r.value.Valid() && r.value.counter == 0
    ensures r.Success? ==> r.value.outOf100 == OutOf100(rate)
  {
    match CheckRate(rate)
    case Failure(e) =>
      r := Failure(e);
    case Success(n) =>
      var s := new CountingSampler(n);
      r := Success(s);
  }

  /** Calls the sampler `calls` times with the same id and counts the true
      decisions. */
  method CountSampled(s: CountingSampler, id: U64, calls: nat) returns (found: nat)
    requires s.Valid()
    modifies s
    ensures s.Valid()
    ensures found == Window(s.pattern, old(s.counter), calls)
    ensures s.counter == (old(s.counter) + calls) % Slots
    ensures calls % Slots == 0 ==> found == calls / Slots * s.outOf100
  {
    found := 0;
    var i := 0;
    ghost var start := s.counter;
    while i < calls
      invariant 0 <= i <= calls
      invariant s.Valid()
      invariant s.counter == (start + i) % Slots
      invariant found == Window(s.pattern, start, i)
    {
      ghost var slot := s.counter;
      WindowSplit(s.pattern, start, i, 1);
      SingleCall(s.pattern, slot);
      var sampled := s.Sample(id);
      assert sampled == s.pattern[slot];
      if sampled {
        found := found + 1;
      }
      ghost var q := (start + i) / Slots;
      SlotOf(start + i, q, slot);
      if slot + 1 < Slots {
        SlotOf(start + i + 1, q, slot + 1);
      } else {
        SlotOf(start + i + 1, q + 1, 0);
      }
      i := i + 1;
    }
    if calls % Slots == 0 {
      CallsInCycles(s.pattern, start, calls);
    }
  }

  /** The rates 0.009 and 1.001 are refused, and the error carries the rate. */
  lemma OutOfRangeRatesRejected()
    ensures CheckRate(9) == Failure(CountingRateError(9))
    ensures CheckRate(1001) == Failure(CountingRateError(1001))
  {
  }

  /** A fresh sampler at n hundredths, called 1000 times with the same id,
      records exactly 10 * n traces. */
  method ThousandCalls(n: nat) returns (found: nat)
    requires n <= Slots
    ensures found == 10 * n
  {
    assert ValidRate(10 * n) || n == 0;
    var r := NewCountingSampler(10 * n);
    assert r.Success? && r.value.outOf100 == n;
    var s := r.value;
    assert 1000 % Slots == 0 && 1000 / Slots == 10;
    found := CountSampled(s, 1, 1000);
  }
}
