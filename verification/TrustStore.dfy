/** The stored trust histories that `contracts/registry/src/trust_score.rs` updates in place. */
module TrustStores {
  import opened Wrappers
  import opened Integers
  import opened TrustScores
  import opened Commitments

  type Histories = map<Address, TrustHistory>

  function RowOf(histories: Histories, a: Address): Option<TrustHistory> {
    if a in histories then Some(histories[a]) else None
  }

  /** The row written for `outcome`; only final outcomes are scored. */
  function Recorded(row: Option<TrustHistory>, outcome: Status, increment: bool, ledger: u32): TrustHistory {
    if IsFinal(outcome) then Updated(row, LaneOf(outcome), increment, ledger)
    else FoldTo(if row.Some? then row.value else TrustHistory(Bucket(ledger), ZERO_COUNTS, ZERO_COUNTS),
                Bucket(ledger))
  }

  class TrustStore {
    var histories: Histories

    constructor ()
      ensures histories == map[]
    {
      histories := map[];
    }

    method UpdateTrustHistory(issuer: Address, outcome: Status, increment: bool, ledger: u32)
      modifies this
      ensures histories == old(histories)[issuer := Recorded(RowOf(old(histories), issuer), outcome, increment, ledger)]
    {
      var nowBucket := ledger / BUCKET_SIZE_LEDGERS;
      var history := if issuer in histories then histories[issuer]
                     else TrustHistory(nowBucket, ZERO_COUNTS, ZERO_COUNTS);
      history := AgeTo(history, nowBucket);
      history := AdjustLane(history, outcome, increment);
      histories := histories[issuer := history];
    }

    /** The lane of a final outcome is adjusted; no other outcome is scored. */
    static method AdjustLane(row: TrustHistory, outcome: Status, increment: bool) returns (history: TrustHistory)
      ensures history == if IsFinal(outcome) then Adjust(row, LaneOf(outcome), increment) else row
    {
      history := row;
      match outcome {
        case Fulfilled =>
          var c, a := AdjustCount(row.current.fulfilled, row.aged.fulfilled, increment);
          history := row.(current := row.current.(fulfilled := c), aged := row.aged.(fulfilled := a));
        case Late =>
          var c, a := AdjustCount(row.current.late, row.aged.late, increment);
          history := row.(current := row.current.(late := c), aged := row.aged.(late := a));
        case Breached =>
          var c, a := AdjustCount(row.current.breached, row.aged.breached, increment);
          history := row.(current := row.current.(breached := c), aged := row.aged.(breached := a));
        case _ =>
      }
    }

    /** The amortised fold of every lane into the aged aggregate, once a new bucket has begun. */
    static method AgeTo(row: TrustHistory, nowBucket: u32) returns (history: TrustHistory)
      ensures history == FoldTo(row, nowBucket)
    {
      history := row;
      if nowBucket > history.epoch {
        var steps := DecaySteps(WrappingSub(nowBucket, history.epoch));
        history := history.(aged := history.aged.(
                     fulfilled := FoldValue(history.aged.fulfilled, history.current.fulfilled, steps)));
        history := history.(aged := history.aged.(
                     late := FoldValue(history.aged.late, history.current.late, steps)));
        history := history.(aged := history.aged.(
                     breached := FoldValue(history.aged.breached, history.current.breached, steps)));
        history := history.(current := ZERO_COUNTS);
        history := history.(epoch := nowBucket);
      }
    }

    /** `adjust_count`; `AdjustMovesOneUnit` says what it does to the lane's undecayed value. */
    static method AdjustCount(current: u64, aged: u64, increment: bool) returns (c: u64, a: u64)
      ensures increment ==> a == aged && c == if current == U64_MAX then current else current + 1
      ensures !increment && current > 0 ==> a == aged && c == current - 1
      ensures !increment && current == 0 ==> c == 0 && a == if aged < SCALE then 0 else aged - SCALE
    {
      c, a := current, aged;
      if increment {
        c := if current == U64_MAX then current else current + 1;
      } else if current > 0 {
        c := current - 1;
      } else {
        a := if aged < SCALE then 0 else aged - SCALE;
      }
    }
  }
}
