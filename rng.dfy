/** `System.Random` as the generator uses it. The generator's numbers come from a stream of
    raw samples fixed by the seed; how .NET derives that stream from the seed and scales a
    sample into a range is foreign code, so the stream is a parameter and a sample `s` is
    scaled to `[lo, hi)` as `lo + s % (hi - lo)`. */
module Rng {

  /** `Next(lo, hi)` applied to the raw sample `s`: a value in `[lo, hi)`, or `lo` when the
      range is empty. */
  function Draw(s: nat, lo: int, hi: int): (v: int)
    requires lo <= hi
    ensures lo < hi ==> lo <= v < hi
    ensures lo == hi ==> v == lo
  {
    if lo == hi then lo else lo + s % (hi - lo)
  }

  /** A pseudo-random generator: the stream it was seeded with and how far it has been read. */
  class Random {
    const samples: nat -> nat
    var drawn: nat

    /** `new System.Random(seed)`: a fresh generator at the start of the seed's stream. */
    constructor (samples: nat -> nat)
      ensures this.samples == samples && drawn == 0
    {
      this.samples := samples;
      drawn := 0;
    }

    /** `Next(minValue, maxValue)`: consumes one sample (also for an empty range, as .NET does)
        and scales it into the range. .NET throws when `minValue > maxValue`. */
    method Next(minValue: int, maxValue: int) returns (v: int)
      requires minValue <= maxValue
      modifies this
      ensures drawn == old(drawn) + 1
      ensures v == Draw(samples(old(drawn)), minValue, maxValue)
    {
      v := Draw(samples(drawn), minValue, maxValue);
      drawn := drawn + 1;
    }
  }
}
