/** NewModuloSampler(mod): a stateless sampler that records an id exactly
    when mod divides it, so that it keeps every mod-th of a run of
    consecutive ids. */
module ModuloSampling {
  import opened Sampling

  /** A usable modulus; zero is a caller error the sampler does not handle. */
  type Modulus = m: int | 1 <= m < 0x1_0000_0000_0000_0000 witness 1

  /** The decision predicate NewModuloSampler returns. */
  datatype ModuloSampler = ModuloSampler(mod: Modulus)

  /** Construction never fails: any modulus of at least 1 gives a sampler
      that records exactly the multiples of mod. */
  function NewModuloSampler(mod: Modulus): (s: ModuloSampler)
    ensures s == ModuloSampler(mod)
    ensures forall id: U64 :: Sample(s, id) <==> id == mod * (id / mod)
  {
    ModuloSampler(mod)
  }

  /** The sampling decision for one trace id. */
  function Sample(s: ModuloSampler, id: U64): (sampled: bool)
    ensures sampled <==> id == s.mod * (id / s.mod)
  {
    id % s.mod == 0
  }

  /** How many of the ids 0, 1, ..., max - 1 the sampler records. */
  function SampledBelow(s: ModuloSampler, max: nat): (count: nat)
    requires max <= TWO64
  {
    if max == 0 then 0
    else SampledBelow(s, max - 1) + (if Sample(s, max - 1) then 1 else 0)
  }

  /** A positive multiple of m is at least m. */
  lemma MultipleAtLeast(k: int, m: int)
    requires k >= 1 && m >= 1
    ensures k * m >= m
  {
    assert k * m == (k - 1) * m + m;
  }

  /** The remainder of q * m + j is j. */
  lemma RemainderOfOffset(q: nat, m: int, j: int)
    requires m >= 1 && 0 <= j < m
    ensures (q * m + j) % m == j
  {
    var a := q * m + j;
    var d, r := a / m, a % m;
    assert a == d * m + r && 0 <= r < m;
    assert (q - d) * m == r - j;
    if q - d >= 1 {
      MultipleAtLeast(q - d, m);
    } else if d - q >= 1 {
      MultipleAtLeast(d - q, m);
    }
  }

  /** Within the block of mod ids that starts at a multiple of mod, only the
      first id is sampled. */
  lemma {:induction false} OnlyFirstOfBlock(s: ModuloSampler, q: nat, j: nat)
    requires j <= s.mod && q * s.mod + j <= TWO64
    ensures SampledBelow(s, q * s.mod + j) == SampledBelow(s, q * s.mod) + (if j == 0 then 0 else 1)
  {
    if j > 0 {
      OnlyFirstOfBlock(s, q, j - 1);
      RemainderOfOffset(q, s.mod, j - 1);
    }
  }

  /** Of the ids in [0, mod * k) exactly k are sampled. */
  lemma {:induction false} ExactCount(s: ModuloSampler, k: nat)
    requires s.mod * k <= TWO64
    ensures SampledBelow(s, s.mod * k) == k
  {
    if k > 0 {
      assert (k - 1) * s.mod + s.mod == s.mod * k;
      ExactCount(s, k - 1);
      OnlyFirstOfBlock(s, k - 1, s.mod);
    }
  }

  /** Counts the sampled ids among 0, 1, ..., max - 1 one call at a time; when
      max is a multiple of mod the count is max / mod. */
  method CountSampled(s: ModuloSampler, max: nat) returns (found: nat)
    requires max <= TWO64
    ensures found == SampledBelow(s, max)
    ensures max % s.mod == 0 ==> found == max / s.mod
  {
    found := 0;
    var i := 0;
    while i < max
      invariant 0 <= i <= max
      invariant found == SampledBelow(s, i)
    {
      if Sample(s, i) {
        found := found + 1;
      }
      i := i + 1;
    }
    if max % s.mod == 0 {
      assert s.mod * (max / s.mod) == max;
      ExactCount(s, max / s.mod);
    }
  }
}
