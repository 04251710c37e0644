/** Where the break of a zone stands after a request to raise it. */
module BreakRule {

  /** A zone's break moves by whole pages and never past the end of the zone. */
  predicate Fits(brk: nat, end: nat, pageSize: nat, pages: nat) {
    brk + pages * pageSize <= end
  }

  function Raised(brk: nat, end: nat, pageSize: nat, pages: nat): nat {
    if Fits(brk, end, pageSize, pages) then brk + pages * pageSize else brk
  }

  // ----- the guards of the source, in 32-bit arithmetic

  /** The test of `increase` for a request of so many bytes past the end of the zone. */
  predicate TestsAbove(brk: nat, end: nat, bytes: nat) {
    (brk + bytes) % 0x1_0000_0000 > end
  }

  /** The test of `decrease` for a request of so many bytes below the zone. */
  predicate TestsBelow(brk: nat, start: nat, bytes: nat) {
    (brk - bytes) % 0x1_0000_0000 < start
  }

  /** The test of `increase` says what it means exactly if the sum does not wrap, or wraps to an
    address past the end of the zone all the same. */
  lemma AboveIsExact(brk: nat, end: nat, bytes: nat)
    requires brk <= end < 0x1_0000_0000
    ensures (TestsAbove(brk, end, bytes) <==> brk + bytes > end)
            <==> brk + bytes < 0x1_0000_0000 || (brk + bytes) % 0x1_0000_0000 > end
  {
  }

  /** The test of `decrease` says what it means exactly if the difference does not wrap, or wraps
    to an address below the zone all the same. */
  lemma BelowIsExact(brk: nat, start: nat, bytes: nat)
    requires start <= brk < 0x1_0000_0000
    ensures (TestsBelow(brk, start, bytes) <==> brk - bytes < start)
            <==> bytes <= brk || (brk - bytes) % 0x1_0000_0000 < start
  {
  }

  /** A request that wraps round and lands in the zone again: the test of `increase` lets it
    through although it goes past the end. */
  lemma AboveMisses()
    ensures var brk, end, bytes := 0xC100_0000, 0xC200_0000, 4096 * 0x3_F000;
            brk + bytes > end && !TestsAbove(brk, end, bytes)
  {
  }

  /** Two requests that the test of `decrease` lets through although they reach below the zone:
    one whose difference wraps, and one whose size in bytes is 0 in 32 bits. */
  lemma BelowMisses()
    ensures var brk, start := 0xC100_2000, 0xC100_0000;
            && brk - 4096 * 0xF_0000 < start && !TestsBelow(brk, start, 4096 * 0xF_0000)
            && brk - 4096 * 0x10_0000 < start && !TestsBelow(brk, start, 4096 * 0x10_0000)
  {
  }
}
