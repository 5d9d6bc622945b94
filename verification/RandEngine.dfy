/** random.h: the random engine, seen as an oracle that answers any value of the requested range. */
module RandEngine {
  import opened Words
  import opened Arith

  /** What the engine answers after being seeded: a value for each seed and number of draws so far. */
  type Source = (nat, nat) -> nat

  /** The k-th draw after seeding, reduced to the closed range [lo, hi]. */
  function Draw(source: Source, seed: nat, k: nat, lo: uint32, hi: uint32): (r: uint32)
    requires lo <= hi
    ensures lo <= r <= hi
  {
    lo + source(seed, k) % (hi - lo + 1)
  }

  /** Every value of the range can be drawn. */
  lemma DrawReaches(source: Source, seed: nat, k: nat, lo: uint32, hi: uint32, v: uint32)
    requires lo <= v <= hi && source(seed, k) == v - lo
    ensures Draw(source, seed, k, lo, hi) == v
  {
    SmallMod(v - lo, hi - lo + 1);
  }

  class Engine {
    const source: Source
    var seed: nat
    var drawn: nat

    constructor (source: Source, seed: nat)
      ensures this.source == source && this.seed == seed && drawn == 0
    {
      this.source := source;
      this.seed := seed;
      drawn := 0;
    }

    method Seed(value: nat)
      modifies this
      ensures seed == value && drawn == 0
    {
      seed := value;
      drawn := 0;
    }

    method Between(lo: uint32, hi: uint32) returns (r: uint32)
      requires lo <= hi
      modifies this`drawn
      ensures r == Draw(source, seed, old(drawn), lo, hi)
      ensures drawn == old(drawn) + 1
    {
      r := Draw(source, seed, drawn, lo, hi);
      drawn := drawn + 1;
    }
  }
}
