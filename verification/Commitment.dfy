/**
 The records of `contracts/registry/src/commitments.rs`: statuses, commitments with their
 packed counters, and the committee's running tally.
 */
module Commitments {
  import opened Wrappers
  import opened Integers
  import opened NumberTheory
  import opened TrustScores

  datatype Status = Pending | Fulfilled | Late | Breached | Disputed

  predicate IsFinal(s: Status) {
    s == Status.Fulfilled || s == Status.Late || s == Status.Breached
  }

  /** The trust-history lane a final outcome is scored in. */
  function LaneOf(s: Status): Lane
    requires IsFinal(s)
  {
    match s
    case Fulfilled => Lane.Fulfilled
    case Late => Lane.Late
    case Breached => Lane.Breached
  }

  // --------------------------------------------------------- packed counters

  const LANE: nat := 0x1_0000
  const LANE2: nat := 0x1_0000_0000
  const LANE3: nat := 0x1_0000_0000_0000

  /**
   `pack_counters`: four 16-bit lanes in one u64, refused when one does not fit. The lanes
   are disjoint, so the bitwise or of the shifted values is their sum.
   */
  function PackCounters(count: u32, attested: u32, late: u32, threshold: u32): Option<u64> {
    if count < LANE && attested < LANE && late < LANE && threshold < LANE
    then Some(count + attested * LANE + late * LANE2 + threshold * LANE3)
    else None
  }

  function MilestoneCount(counters: u64): u32 { counters % LANE }

  function MilestonesAttested(counters: u64): u32 { counters / LANE % LANE }

  function LateMilestones(counters: u64): u32 { counters / LANE2 % LANE }

  function VoteThreshold(counters: u64): u32 { counters / LANE3 % LANE }

  function SaturatingAddOne(v: u32): u32 { if v == 0xFFFF_FFFF then v else v + 1 }

  /** `record_milestone_attested`. */
  function RecordMilestone(counters: u64, late: bool): Option<u64> {
    PackCounters(MilestoneCount(counters), SaturatingAddOne(MilestonesAttested(counters)),
                 LateMilestones(counters) + (if late then 1 else 0), VoteThreshold(counters))
  }

  /** Packing is refused exactly when a lane overflows, and the accessors undo it. */
  lemma PackRoundTrip(count: u32, attested: u32, late: u32, threshold: u32)
    ensures PackCounters(count, attested, late, threshold).Some?
            <==> count < LANE && attested < LANE && late < LANE && threshold < LANE
    ensures PackCounters(count, attested, late, threshold).Some? ==>
              var c := PackCounters(count, attested, late, threshold).value;
              && MilestoneCount(c) == count && MilestonesAttested(c) == attested
              && LateMilestones(c) == late && VoteThreshold(c) == threshold
  {
    if count < LANE && attested < LANE && late < LANE && threshold < LANE {
      var c: u64 := count + attested * LANE + late * LANE2 + threshold * LANE3;
      DivModUnique(c, LANE, attested + late * LANE + threshold * LANE2, count);
      DivModUnique(c / LANE, LANE, late + threshold * LANE, attested);
      DivModUnique(c, LANE2, late + threshold * LANE, count + attested * LANE);
      DivModUnique(c / LANE2, LANE, threshold, late);
      DivModUnique(c, LANE3, threshold, count + attested * LANE + late * LANE2);
      DivModUnique(threshold, LANE, 0, threshold);
    }
  }

  /** The lanes of a packed word are all there is to it. */
  lemma UnpackRoundTrip(c: u64)
    ensures PackCounters(MilestoneCount(c), MilestonesAttested(c), LateMilestones(c), VoteThreshold(c)) == Some(c)
  {
    var q1, q2, q3 := c / LANE, c / LANE2, c / LANE3;
    DivideTwice(c, 1);
    DivideTwice(c, LANE);
    DivideTwice(c, LANE2);
    DivModUnique(q3, LANE, 0, q3);
  }

  lemma DivideTwice(c: u64, m: nat)
    requires m > 0
    ensures 0 <= c / m && c / m == LANE * (c / (m * LANE)) + c / m % LANE
  {
    ShiftTwice(c, m, LANE);
  }

  /** On bit vectors: or-ing the shifted lanes adds them, and shift-and-mask reads them back. */
  lemma LanesAreDisjoint(a: bv64, b: bv64, c: bv64, d: bv64)
    requires a < 0x1_0000 && b < 0x1_0000 && c < 0x1_0000 && d < 0x1_0000
    ensures var w := a | (b << 16) | (c << 32) | (d << 48);
            && w == a + (b << 16) + (c << 32) + (d << 48)
            && w & 0xFFFF == a && (w >> 16) & 0xFFFF == b
            && (w >> 32) & 0xFFFF == c && (w >> 48) & 0xFFFF == d
  {
  }
}
