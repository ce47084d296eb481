/** The packed hybrid timestamp: 46 bits of milliseconds over an 18-bit logical counter in a u64. */
module Tso {
  import opened Core

  type U64 = n: nat | n < U64_LIMIT

  const LOGICAL_LIMIT: nat := 0x4_0000
  const PHYSICAL_LIMIT: nat := 0x4000_0000_0000

  /** `physical_ms << 18 | logical & mask`: bits beyond either field are dropped. */
  function FromParts(physicalMs: U64, logical: nat): U64 {
    (physicalMs % PHYSICAL_LIMIT) * LOGICAL_LIMIT + logical % LOGICAL_LIMIT
  }

  function PhysicalMs(ts: U64): U64 {
    ts / LOGICAL_LIMIT
  }

  function Logical(ts: U64): nat {
    ts % LOGICAL_LIMIT
  }

  /** The shift-and-mask expressions on machine words: the two fields do not overlap, what is shifted
      out is gone, and both fields come back. */
  lemma PackedWord(physicalMs: bv64, logical: bv64)
    ensures var word := (physicalMs << 18) | (logical & 0x3_FFFF);
            && word == (physicalMs << 18) + (logical & 0x3_FFFF)
            && word >> 18 == physicalMs & 0x3FFF_FFFF_FFFF
            && word & 0x3_FFFF == logical & 0x3_FFFF
  {
  }

  /** Decomposing a composed timestamp gives the two fields cut to 46 and 18 bits. */
  lemma PartsOfComposed(physicalMs: U64, logical: nat)
    ensures PhysicalMs(FromParts(physicalMs, logical)) == physicalMs % 0x4000_0000_0000
    ensures Logical(FromParts(physicalMs, logical)) == logical % 0x4_0000
    ensures FromParts(physicalMs, logical) == physicalMs % 0x4000_0000_0000 * 0x4_0000 + logical % 0x4_0000
  {
  }

  /** Composing the parts of any timestamp gives it back. */
  lemma ComposeParts(ts: U64)
    ensures FromParts(PhysicalMs(ts), Logical(ts)) == ts
  {
  }

  /** The order of packed words is the lexicographic order of their fields. */
  lemma OrderOfComposed(p: U64, l: nat, q: U64, m: nat)
    requires p < PHYSICAL_LIMIT && q < PHYSICAL_LIMIT && l < LOGICAL_LIMIT && m < LOGICAL_LIMIT
    ensures FromParts(p, l) < FromParts(q, m) <==> p < q || (p == q && l < m)
  {
  }

  /** One attempt of `issue`: the next timestamp after `last` at wall clock `wall`; `None` when the
      logical counter of this millisecond is used up. */
  function Advance(last: U64, wall: U64): Option<U64> {
    if wall > PhysicalMs(last) then Some(FromParts(wall, 0))
    else if Logical(last) == LOGICAL_LIMIT - 1 then None
    else Some(FromParts(PhysicalMs(last), Logical(last) + 1))
  }

  /** With a clock below 2^46 ms an attempt gives the least timestamp that is above `last` and not
      before the wall clock, and it fails exactly at the last slot of a millisecond the clock has
      not left. */
  lemma AdvanceIsLeast(last: U64, wall: U64)
    requires wall < PHYSICAL_LIMIT
    ensures Advance(last, wall).Some? ==>
              var next := Advance(last, wall).value;
              && next > last && PhysicalMs(next) >= wall
              && forall other: U64 :: other > last && PhysicalMs(other) >= wall ==> next <= other
    ensures Advance(last, wall).None? <==> wall <= PhysicalMs(last) && Logical(last) == LOGICAL_LIMIT - 1
    ensures Advance(last, wall).Some? && PhysicalMs(last) >= wall ==> PhysicalMs(Advance(last, wall).value) == PhysicalMs(last)
    ensures Advance(last, wall).Some? && PhysicalMs(last) < wall ==> PhysicalMs(Advance(last, wall).value) == wall
  {
    ComposeParts(last);
  }

  /** For a clock of any size: an attempt increases exactly when the millisecond field did not lose
      the bits that put the clock ahead. */
  lemma AdvanceIncreasesIff(last: U64, wall: U64)
    requires Advance(last, wall).Some?
    ensures Advance(last, wall).value > last <==>
            wall <= PhysicalMs(last) || wall % PHYSICAL_LIMIT > PhysicalMs(last)
  {
    ComposeParts(last);
  }
}
