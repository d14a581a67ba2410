/**
 Who the registry pays, over every run: the escrow of each dispute that a resolver or the
 committee settled went once, in full, to the winning party, and no other escrow ever left.
 */
module RegistryPayouts {
  import opened Wrappers
  import opened Integers
  import opened Commitments
  import opened Staking
  import opened Registry
  import opened RegistryEffects
  import M = RegistryMilestones
  import V = RegistryVault

  /** The escrow payments made for one commitment. */
  function PaidFor(payouts: seq<Payout>, id: u64): seq<Payout> {
    if payouts == [] then []
    else
      var last := payouts[|payouts| - 1];
      PaidFor(payouts[..|payouts| - 1], id) + (if last.EscrowPaid? && last.id == id then [last] else [])
  }

  /** A dispute without a panel that has been settled. */
  predicate SettledDirectly(b: Book, id: u64) {
    id in b.commitments && b.commitments[id].attestors == [] && V.Settled(b.commitments[id])
  }

  ghost predicate EscrowPaidOnce(s: State, id: u64) {
    if SettledDirectly(s.book, id)
    then && s.config.disputeToken.Some?
         && var c := s.book.commitments[id];
         var winner := match c.status case Fulfilled => c.issuer case _ => c.counterparty;
         PaidFor(s.payouts, id) == [EscrowPaid(id, winner, s.config.disputeToken.value, 100_000_000)]
    else PaidFor(s.payouts, id) == []
  }

  ghost predicate PayoutsExact(s: State) {
    forall id: u64 :: EscrowPaidOnce(s, id)
  }

  lemma PaidForAfter(payouts: seq<Payout>, p: Payout, id: u64)
    ensures PaidFor(payouts + [p], id)
            == PaidFor(payouts, id) + (if p.EscrowPaid? && p.id == id then [p] else [])
  {
    assert (payouts + [p])[..|payouts|] == payouts;
  }

  /** What was settled directly before is so now, unchanged, and nothing else is; and the payments agree. */
  lemma FramePayouts(s: State, t: State, id: u64)
    requires EscrowPaidOnce(s, id) && PaidFor(t.payouts, id) == PaidFor(s.payouts, id)
    requires s.config.disputeToken.Some? ==> t.config.disputeToken == s.config.disputeToken
    requires SettledDirectly(t.book, id) <==> SettledDirectly(s.book, id)
    requires SettledDirectly(s.book, id) ==> t.book.commitments[id] == s.book.commitments[id]
    ensures EscrowPaidOnce(t, id)
  {
  }

  // -------------------------------------------------------------------- steps

  lemma OtherCallsKeepPayouts(s: State, env: Env, call: Call, id: u64)
    requires EscrowPaidOnce(s, id) && !TouchesBook(call)
    ensures EscrowPaidOnce(Step(s, env, call), id)
  {
    var t := Step(s, env, call);
    OtherCallsKeepBook(s, env, call);
    if call.CallFinalizeUnstake? && Invoke(s, env, call).Ok? {
      var amount := StakeOf(s.vault.stakes, call.attestor).staked;
      PaidForAfter(s.payouts, StakeReturned(call.attestor, s.config.stakingToken.value, amount), id);
    }
    FramePayouts(s, t, id);
  }

  lemma {:induction false} CreateAllKeepsPayouts(s: State, env: Env, ps: seq<CommitmentParams>, id: u64)
    requires EscrowPaidOnce(s, id) && M.MilestonesSound(s.book) && CreateAll(s, env, ps).Ok?
    ensures EscrowPaidOnce(CreateAll(s, env, ps).value, id)
  {
    if ps != [] {
      var front := ps[..|ps| - 1];
      CreateAllKeepsPayouts(s, env, front, id);
      M.CreateAllKeeps(s, env, front);
      CreateKeepsPayouts(CreateAll(s, env, front).value, env, ps[|ps| - 1], 1, id);
    }
  }

  lemma CreateKeepsPayouts(s: State, env: Env, p: CommitmentParams, count: u32, id: u64)
    requires EscrowPaidOnce(s, id) && M.MilestonesSound(s.book) && Create(s, env, p, count).Ok?
    ensures EscrowPaidOnce(Create(s, env, p, count).value, id)
  {
    assert s.book.nextId in s.book.commitments ==> M.Sound(s.book, s.book.nextId);
  }

  lemma AttestKeepsPayouts(s: State, env: Env, caller: Address, other: u64, index: Option<u32>, outcome: Status,
                           id: u64)
    requires EscrowPaidOnce(s, id) && Attest(s, env, caller, other, index, outcome).Ok?
    ensures EscrowPaidOnce(Attest(s, env, caller, other, index, outcome).value, id)
  {
    FramePayouts(s, Attest(s, env, caller, other, index, outcome).value, id);
  }

  lemma DisputeKeepsPayouts(s: State, env: Env, caller: Address, other: u64, id: u64)
    requires EscrowPaidOnce(s, id) && Dispute(s, env, caller, other).Ok?
    ensures EscrowPaidOnce(Dispute(s, env, caller, other).value, id)
  {
    DisputeEffect(s, env, caller, other);
    FramePayouts(s, Dispute(s, env, caller, other).value, id);
  }

  /** A settlement without a panel pays the winner; the other commitments see nothing of it. */
  lemma FinalizedPaysWinner(s: State, env: Env, other: u64, outcome: Status, id: u64)
    requires V.VaultSound(s) && EscrowPaidOnce(s, id) && IsFinal(outcome)
    requires other in s.book.commitments && s.book.commitments[other].status == Status.Disputed
    requires s.book.commitments[other].attestors == []
    ensures Finalized(s, env, other, outcome).Ok? && EscrowPaidOnce(Finalized(s, env, other, outcome).value, id)
  {
    V.FinalizedKeepsVault(s, env, other, outcome);
    FinalizedEffect(s, env, other, outcome);
    var c, t := s.book.commitments[other], Finalized(s, env, other, outcome).value;
    assert V.HasEscrow(s.book, other);
    var paid := EscrowPaid(other, Winner(c, outcome), s.config.disputeToken.value, DISPUTE_STAKE_AMOUNT);
    assert t.payouts == s.payouts + [paid];
    PaidForAfter(s.payouts, paid, id);
    if id != other { FramePayouts(s, t, id); }
  }

  lemma ResolveKeepsPayouts(s: State, env: Env, caller: Address, other: u64, outcome: Status, id: u64)
    requires V.VaultSound(s) && EscrowPaidOnce(s, id) && Resolve(s, env, caller, other, outcome).Ok?
    ensures EscrowPaidOnce(Resolve(s, env, caller, other, outcome).value, id)
  {
    if RouteOf(s, s.book.commitments[other], caller) == Direct {
      FinalizedPaysWinner(s, env, other, outcome, id);
    } else {
      var votes := RecordVote(VotesOn(s, other), caller, outcome);
      var voted := s.(ballots := s.ballots.(committee := s.ballots.committee[other := votes]));
      FramePayouts(s, voted, id);
      if VotesFor(votes.counts, outcome) > |s.config.arbitrators.value| / 2 {
        V.Rebalanced(s, voted, 0, 0);
        FinalizedPaysWinner(voted, env, other, outcome, id);
      }
    }
  }

  /** A panel's conclusion pays nobody. */
  lemma ConcludedKeepsPayouts(s: State, env: Env, other: u64, slash: bool, outcome: Status, id: u64)
    requires EscrowPaidOnce(s, id) && IsFinal(outcome)
    requires other in s.book.commitments && s.book.commitments[other].status == Status.Disputed
    requires s.book.commitments[other].attestors != [] && Concluded(s, env, other, slash, outcome).Ok?
    ensures EscrowPaidOnce(Concluded(s, env, other, slash, outcome).value, id)
  {
    ConcludedEffect(s, env, other, slash, outcome);
    FramePayouts(s, Concluded(s, env, other, slash, outcome).value, id);
  }

  lemma VoteKeepsPayouts(s: State, env: Env, attestor: Address, other: u64, outcome: Status, id: u64)
    requires EscrowPaidOnce(s, id) && CastVote(s, env, attestor, other, outcome).Ok?
    ensures EscrowPaidOnce(CastVote(s, env, attestor, other, outcome).value, id)
  {
    var voted := WithVote(s, attestor, other, outcome);
    FramePayouts(s, voted, id);
    if VotesFor(TallyOf(voted, other), outcome) >= VoteThreshold(s.book.commitments[other].counters) {
      ConcludedKeepsPayouts(voted, env, other, true, outcome, id);
    }
  }

  lemma StepKeepsPayouts(s: State, env: Env, call: Call, id: u64)
    requires EscrowPaidOnce(s, id) && V.VaultSound(s) && M.MilestonesSound(s.book)
    ensures EscrowPaidOnce(Step(s, env, call), id)
  {
    if !TouchesBook(call) {
      OtherCallsKeepPayouts(s, env, call, id);
    } else if Invoke(s, env, call).Ok? {
      match call
      case CallCreate(params, milestoneCount) => CreateKeepsPayouts(s, env, params, milestoneCount, id);
      case CallCreateBatch(batch) => CreateAllKeepsPayouts(s, env, batch, id);
      case CallAttest(caller, other, index, outcome) => AttestKeepsPayouts(s, env, caller, other, index, outcome, id);
      case CallDispute(caller, other) => DisputeKeepsPayouts(s, env, caller, other, id);
      case CallResolve(caller, other, outcome) => ResolveKeepsPayouts(s, env, caller, other, outcome, id);
      case CallVote(attestor, other, outcome) => VoteKeepsPayouts(s, env, attestor, other, outcome, id);
      case CallTimeout(other) =>
        assert M.Sound(s.book, other);
        ConcludedKeepsPayouts(s, env, other, false, Status.Breached, id);
    }
  }

  /**
   In every reachable state, the escrow of every dispute settled without a panel has been
   paid exactly once, in full, in the dispute token, to the issuer when the commitment was
   found fulfilled and to its counterparty otherwise; nothing was ever paid for any other
   commitment, in particular not for one with a panel.
   */
  lemma {:induction false} EscrowsPaidOnceInEveryRun(script: Script)
    ensures PayoutsExact(Run(script))
  {
    if script != [] {
      var front, last := script[..|script| - 1], script[|script| - 1];
      EscrowsPaidOnceInEveryRun(front);
      V.VaultSoundInEveryRun(front);
      forall id: u64 ensures EscrowPaidOnce(Run(script), id) {
        StepKeepsPayouts(Run(front), last.0, last.1, id);
      }
    }
  }

  /** Party by party: the issuer of a fulfilled commitment gets the escrow, the counterparty that of any other. */
  lemma WinnerTakesEscrow(script: Script, id: u64)
    requires var b := Run(script).book; SettledDirectly(b, id)
    ensures var s := Run(script);
            && s.config.disputeToken.Some?
            && var c, t := s.book.commitments[id], s.config.disputeToken.value;
            && (c.status == Status.Fulfilled ==> PaidFor(s.payouts, id) == [EscrowPaid(id, c.issuer, t, 100_000_000)])
            && (c.status == Status.Late || c.status == Status.Breached ==>
                  PaidFor(s.payouts, id) == [EscrowPaid(id, c.counterparty, t, 100_000_000)])
  {
    EscrowsPaidOnceInEveryRun(script);
    assert EscrowPaidOnce(Run(script), id);
  }

  /** A finished withdrawal pays the attestor's whole stake out, once: the record is gone. */
  lemma WithdrawalPaysWholeStake(script: Script, env: Env, attestor: Address)
    requires FinalizeUnstake(Run(script), env, attestor).Ok?
    ensures var s, t := Run(script), FinalizeUnstake(Run(script), env, attestor).value;
            && attestor in s.vault.stakes && attestor !in t.vault.stakes && s.config.stakingToken.Some?
            && var amount := s.vault.stakes[attestor].staked;
            && amount > 0 && t.payouts == s.payouts + [StakeReturned(attestor, s.config.stakingToken.value, amount)]
            && FinalizeUnstake(t, env, attestor).Err?
  {
    V.VaultSoundInEveryRun(script);
  }
}
