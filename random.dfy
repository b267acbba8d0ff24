/**
 * bracket_lib's `RandomNumberGenerator`, whose source is not part of this
 * model. The generator is a stream of raw draws `source(0), source(1), ...`
 * and a position in it; `range(lo, hi)` consumes one draw and maps it into
 * the half-open interval [lo, hi). Everything drawn is a function of the
 * stream and the starting position, which is what makes generation
 * reproducible from a seed.
 */
module Random {
  import opened Wrappers

  /** The value `range(lo, hi)` yields from raw draw number k. */
  function Draw(source: nat -> nat, k: nat, lo: int, hi: int): (r: int)
    requires lo < hi
    ensures lo <= r < hi
  {
    lo + source(k) % (hi - lo)
  }

  class Rng {
    const source: nat -> nat
    var pos: nat

    constructor (source: nat -> nat)
      ensures this.source == source && pos == 0
    {
      this.source := source;
      pos := 0;
    }

    /** `range(lo, hi)`: a value in [lo, hi); an empty range panics in the library. */
    method Range(lo: int, hi: int) returns (r: int)
      requires lo < hi
      modifies this
      ensures pos == old(pos) + 1
      ensures r == Draw(source, old(pos), lo, hi)
    {
      r := Draw(source, pos, lo, hi);
      pos := pos + 1;
    }

    /** `random_slice_index`: None for an empty slice, otherwise an index into it. */
    method RandomSliceIndex(len: nat) returns (r: Option<nat>)
      modifies this
      ensures len == 0 ==> r == None && pos == old(pos)
      ensures len > 0 ==> r == Some(Draw(source, old(pos), 0, len) as nat) && pos == old(pos) + 1
    {
      if len == 0 {
        r := None;
      } else {
        var k := Range(0, len);
        r := Some(k as nat);
      }
    }
  }
}
