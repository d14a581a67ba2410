/**
 Attestor stakes (`contracts/registry/src/staking.rs`) and the slash arithmetic of
 `contracts/registry/src/economics`.
 */
module Staking {
  import opened Wrappers
  import opened Integers
  import opened NumberTheory

  const UNBONDING_PERIOD_SECONDS: nat := 1_209_600
  const SLASH_PERCENT: u64 := 10

  datatype AttestorStake = AttestorStake(staked: i128, unbondingUntil: Option<u64>, locked: bool)

  type Stakes = map<Address, AttestorStake>

  const NO_STAKE: AttestorStake := AttestorStake(0, None, false)

  /** `load_stake`. */
  function StakeOf(stakes: Stakes, a: Address): AttestorStake {
    if a in stakes then stakes[a] else NO_STAKE
  }

  /** `set_locked`: records that are absent or empty are left untouched. */
  function SetLocked(stakes: Stakes, a: Address, locked: bool): Stakes {
    var stake := StakeOf(stakes, a);
    if stake.staked == 0 || stake.locked == locked then stakes
    else stakes[a := stake.(locked := locked)]
  }

  datatype SlashCut = SlashCut(cut: i128, remaining: i128)

  /** `slash_cut`: the percentage of a positive stake, rounded down, with checked arithmetic. */
  function CutOf(staked: i128, percent: u64): Option<SlashCut> {
    if percent > 100 then None
    else if staked <= 0 then Some(SlashCut(0, staked))
    else if staked * percent >= I128_LIMIT then None
    else
      var cut := staked * percent / 100;
      CutWithin(staked, percent);
      if cut <= 0 then Some(SlashCut(0, staked)) else Some(SlashCut(cut, staked - cut))
  }

  lemma CutWithin(staked: nat, percent: nat)
    requires percent <= 100
    ensures 0 <= staked * percent / 100 <= staked
  {
    Products(staked, percent);
    DivisionFacts(staked * percent, 100);
  }

  lemma Products(a: nat, b: nat)
    requires b <= 100
    ensures 0 <= a * b <= a * 100
  {
  }

  /**
   A cut never creates or destroys stake, takes at most the whole of it, is refused exactly
   when the percentage exceeds 100 or the product overflows, and at the protocol's rate
   never empties a positive stake.
   */
  lemma CutSplitsStake(staked: i128, percent: u64)
    ensures CutOf(staked, percent).Some? <==> percent <= 100 && (staked <= 0 || staked * percent < I128_LIMIT)
    ensures CutOf(staked, percent).Some? ==>
              var c := CutOf(staked, percent).value;
              c.cut + c.remaining == staked && 0 <= c.cut && (staked > 0 ==> c.cut <= staked)
    ensures staked > 0 && CutOf(staked, SLASH_PERCENT).Some? ==>
              var c := CutOf(staked, SLASH_PERCENT).value;
              c.cut * 10 <= staked < c.cut * 10 + 10 && c.remaining > 0
  {
    if staked > 0 && percent <= 100 { CutWithin(staked, percent); }
  }

  datatype SlashDecision = Slash | Spare

  /** `should_slash_attestor`. */
  function ShouldSlash(slashDissenters: bool, castAVote: bool, votedWithWinner: bool): SlashDecision {
    if !slashDissenters then Spare
    else if !castAVote then Spare
    else if votedWithWinner then Spare
    else Slash
  }

  /** `slash`: the record with its cut taken, and the amount forfeited. */
  function Slashed(stakes: Stakes, a: Address): Option<(Stakes, nat)> {
    var stake := StakeOf(stakes, a);
    var cut := CutOf(stake.staked, SLASH_PERCENT);
    if cut.None? then None
    else if cut.value.cut <= 0 then Some((stakes, 0))
    else Some((stakes[a := stake.(staked := cut.value.remaining)], cut.value.cut))
  }
}
