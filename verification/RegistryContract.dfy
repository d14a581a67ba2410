/**
 The registry contract as an object that its entrypoints update in place. Every entrypoint
 leaves exactly the state its specification in `Registry` describes, or panics with the
 specified error and leaves everything as it was.
 */
module RegistryContracts {
  import opened Wrappers
  import opened Integers
  import opened Commitments
  import opened TrustStores
  import R = Reputations
  import opened Staking
  import opened Registry

  class RegistryContract {
    var config: Config
    var book: Book
    var ballots: Ballots
    var vault: Vault
    ghost var slashed: nat
    ghost var payouts: seq<Payout>
    const reputation: R.ReputationStore
    const trust: TrustStore

    ghost function Snapshot(): State
      reads this, reputation, trust
    {
      State(config, book, ballots, vault, slashed, reputation.Snapshot(), trust.histories, payouts)
    }

    constructor ()
      ensures fresh(reputation) && fresh(trust)
      ensures Snapshot() == GENESIS
    {
      config := Config(None, None, false, None, None);
      book := Book(1, map[], map[]);
      ballots := Ballots(map[], map[], map[]);
      vault := Vault(map[], map[], map[]);
      slashed := 0;
      payouts := [];
      reputation := new R.ReputationStore();
      trust := new TrustStore();
    }

    /** A successful call reaches the specified state; a panic reports its error and changes nothing. */
    static ghost predicate Agrees(r: Outcome<()>, spec: Outcome<State>, before: State, after: State) {
      if spec.Ok? then r.Ok? && after == spec.value
      else r == Err(spec.error) && after == before
    }

    // ----------------------------------------------------------------- set-up

    method Initialize(env: Env, candidates: seq<Address>, newAdmin: Address) returns (r: Outcome<()>)
      modifies this
      ensures Agrees(r, Registry.Initialize(old(Snapshot()), env, candidates, newAdmin), old(Snapshot()), Snapshot())
    {
      if config.arbitrators.Some? { return Err(AlreadyInitialized); }
      if candidates == [] { return Err(EmptyArbitratorSet); }
      if newAdmin !in env.signers { return Err(NotSigned); }
      if config.admin.Some? { return Err(AdminAlreadySet); }
      var deduped: seq<Address> := [];
      for i := 0 to |candidates|
        invariant deduped == Dedup(candidates[..i])
      {
        assert candidates[..i + 1][..i] == candidates[..i];
        if candidates[i] !in deduped { deduped := deduped + [candidates[i]]; }
      }
      assert candidates[..|candidates|] == candidates;
      DedupKeepsMembers(candidates);
      for i := 0 to |deduped|
        invariant forall j :: 0 <= j < i ==> deduped[j] in env.signers
      {
        if deduped[i] !in env.signers {
          assert deduped[i] in candidates;
          return Err(NotSigned);
        }
      }
      config := config.(admin := Some(newAdmin));
      config := config.(arbitrators := Some(deduped));
      r := Ok(());
    }

    method SetPaused(env: Env, caller: Address, flag: bool) returns (r: Outcome<()>)
      modifies this
      ensures Agrees(r, Registry.SetPaused(old(Snapshot()), env, caller, flag), old(Snapshot()), Snapshot())
    {
      if caller !in env.signers { return Err(NotSigned); }
      if config.admin.None? { return Err(NotInitialized); }
      if config.admin.value != caller { return Err(NotAdmin); }
      config := config.(paused := flag);
      r := Ok(());
    }

    method SetStakingToken(env: Env, caller: Address, token: Address) returns (r: Outcome<()>)
      modifies this
      ensures Agrees(r, Registry.SetStakingToken(old(Snapshot()), env, caller, token), old(Snapshot()), Snapshot())
    {
      if caller !in env.signers { return Err(NotSigned); }
      if config.arbitrators.None? { return Err(NotInitialized); }
      if caller !in config.arbitrators.value { return Err(NotArbitrator); }
      if config.stakingToken.Some? { return Err(AlreadyInitialized); }
      config := config.(stakingToken := Some(token));
      r := Ok(());
    }

    method SetDisputeToken(env: Env, caller: Address, token: Address) returns (r: Outcome<()>)
      modifies this
      ensures Agrees(r, Registry.SetDisputeToken(old(Snapshot()), env, caller, token), old(Snapshot()), Snapshot())
    {
      if caller !in env.signers { return Err(NotSigned); }
      if config.arbitrators.None? { return Err(NotInitialized); }
      if caller !in config.arbitrators.value { return Err(NotArbitrator); }
      if config.disputeToken.Some? { return Err(AlreadyInitialized); }
      config := config.(disputeToken := Some(token));
      r := Ok(());
    }

    // --------------------------------------------------------------- creation

    method CreateCommitment(env: Env, p: CommitmentParams, milestoneCount: u32) returns (r: Outcome<u64>)
      modifies this
      ensures var spec := Registry.CreateCommitment(old(Snapshot()), env, p, milestoneCount);
              if spec.Ok? then r == Ok(old(book.nextId)) && Snapshot() == spec.value
              else r == Err(spec.error) && Snapshot() == old(Snapshot())
    {
      if config.paused { return Err(ProtocolPaused); }
      if p.issuer !in env.signers { return Err(NotSigned); }
      if p.dueAt <= env.now { return Err(DueAtInPast); }
      if milestoneCount == 0 || milestoneCount > MAX_MILESTONES { return Err(InvalidMilestoneCount); }
      var hasPanel := p.attestors != [];
      if hasPanel != (p.voteThreshold > 0) || p.voteThreshold > |p.attestors| { return Err(ThresholdInvalid); }
      var id := book.nextId;
      if id == U64_MAX { return Err(Overflow); }
      var counters := PackCounters(milestoneCount, 0, 0, p.voteThreshold);
      if counters.None? { return Err(Overflow); }
      book := book.(nextId := id + 1);
      var commitment := Commitment(id, p.issuer, p.counterparty, p.termsHash, p.dueAt, Status.Pending, env.now, None,
                                   p.resolver, p.oracle, p.schemaId, p.attestors, counters.value);
      book := book.(commitments := book.commitments[id := commitment]);
      r := Ok(id);
    }

    /** All of the batch is created, or none of it. */
    method CreateBatch(env: Env, ps: seq<CommitmentParams>) returns (r: Outcome<seq<u64>>)
      modifies this
      ensures var spec := Registry.CreateBatch(old(Snapshot()), env, ps);
              if spec.Ok?
              then r.Ok? && |r.value| == |ps| && Snapshot() == spec.value
                   && forall i :: 0 <= i < |ps| ==> r.value[i] == old(book.nextId) + i
              else r == Err(spec.error) && Snapshot() == old(Snapshot())
    {
      if config.paused { return Err(ProtocolPaused); }
      if |ps| > MAX_CREATE_BATCH { return Err(BatchTooLarge); }
      var ids: seq<u64> := [];
      var next, created := book.nextId, book.commitments;
      ghost var before := Snapshot();
      for i := 0 to |ps|
        invariant Snapshot() == before && next == book.nextId + i
        invariant |ids| == i && forall j :: 0 <= j < i ==> ids[j] == book.nextId + j
        invariant CreateAll(before, env, ps[..i])
                  == Ok(before.(book := before.book.(nextId := next, commitments := created)))
      {
        assert ps[..i + 1][..i] == ps[..i];
        CreateAllFails(before, env, ps, i + 1);
        var p := ps[i];
        if p.issuer !in env.signers { return Err(NotSigned); }
        if p.dueAt <= env.now { return Err(DueAtInPast); }
        var hasPanel := p.attestors != [];
        if hasPanel != (p.voteThreshold > 0) || p.voteThreshold > |p.attestors| { return Err(ThresholdInvalid); }
        var id := next;
        if id == U64_MAX { return Err(Overflow); }
        var counters := PackCounters(1, 0, 0, p.voteThreshold);
        if counters.None? { return Err(Overflow); }
        next := id + 1;
        var commitment := Commitment(id, p.issuer, p.counterparty, p.termsHash, p.dueAt, Status.Pending, env.now, None,
                                     p.resolver, p.oracle, p.schemaId, p.attestors, counters.value);
        created := created[id := commitment];
        ids := ids + [id];
      }
      assert ps[..|ps|] == ps;
      book := book.(nextId := next, commitments := created);
      r := Ok(ids);
    }

    // ------------------------------------------------------------ attestation

    method Attest(env: Env, caller: Address, id: u64, index: Option<u32>, outcome: Status) returns (r: Outcome<()>)
      modifies this, reputation, trust
      ensures Agrees(r, Registry.Attest(old(Snapshot()), env, caller, id, index, outcome), old(Snapshot()), Snapshot())
    {
      var e := CheckAttest(env, caller, id, index, outcome);
      if e.Some? { return Err(e.value); }
      var commitment := book.commitments[id];
      var k := MilestonesAttested(commitment.counters);
      commitment := commitment.(counters := RecordMilestone(commitment.counters, outcome == Status.Late).value);
      book := book.(milestones := book.milestones[(id, k) := outcome]);
      var resolution := None;
      if outcome == Status.Breached {
        resolution := Some(Status.Breached);
      } else if MilestonesAttested(commitment.counters) == MilestoneCount(commitment.counters) {
        resolution := Some(if LateMilestones(commitment.counters) > 0 then Status.Late else Status.Fulfilled);
      }
      if resolution.Some? {
        commitment := commitment.(status := resolution.value, attestedAt := Some(env.now));
      }
      book := book.(commitments := book.commitments[id := commitment]);
      if resolution.Some? {
        Score(env, commitment.issuer, resolution.value, true);
      }
      r := Ok(());
    }

    method CheckAttest(env: Env, caller: Address, id: u64, index: Option<u32>, outcome: Status)
      returns (e: Option<Error>)
      ensures e == AttestError(Snapshot(), env, caller, id, index, outcome)
    {
      if config.paused { return Some(ProtocolPaused); }
      if caller !in env.signers { return Some(NotSigned); }
      if outcome == Status.Pending || outcome == Status.Disputed { return Some(InvalidOutcome); }
      if id !in book.commitments { return Some(CommitmentNotFound); }
      var commitment := book.commitments[id];
      if caller != commitment.issuer && caller != commitment.counterparty && Some(caller) != commitment.oracle {
        return Some(Unauthorized);
      }
      if commitment.status != Status.Pending { return Some(AlreadyResolved); }
      var attested := MilestonesAttested(commitment.counters);
      var k := if index.Some? then index.value else attested;
      if k >= MilestoneCount(commitment.counters) { return Some(InvalidMilestoneIndex); }
      if k < attested { return Some(MilestoneAlreadyAttested); }
      if k > attested { return Some(MilestoneOutOfOrder); }
      if RecordMilestone(commitment.counters, outcome == Status.Late).None? { return Some(Overflow); }
      e := None;
    }

    method Score(env: Env, issuer: Address, outcome: Status, increment: bool)
      modifies reputation, trust
      ensures Snapshot() == Scored(old(Snapshot()), env, issuer, outcome, increment)
    {
      reputation.UpdateReputation(issuer, outcome, increment, env.now);
      trust.UpdateTrustHistory(issuer, outcome, increment, env.ledger);
    }

    // --------------------------------------------------------------- disputes

    method Dispute(env: Env, caller: Address, id: u64) returns (r: Outcome<()>)
      modifies this, reputation, trust
      ensures Agrees(r, Registry.Dispute(old(Snapshot()), env, caller, id), old(Snapshot()), Snapshot())
    {
      var e := CheckDispute(env, caller, id);
      if e.Some? { return Err(e.value); }
      var commitment := book.commitments[id];
      vault := vault.(held := Credit(vault.held, config.disputeToken.value, DISPUTE_STAKE_AMOUNT));
      vault := vault.(escrows := vault.escrows[id := DISPUTE_STAKE_AMOUNT]);
      LockPanel(commitment.attestors);
      var oldStatus := commitment.status;
      book := book.(commitments := book.commitments[id := commitment.(status := Status.Disputed)]);
      assert Snapshot() == Disputing(old(Snapshot()), id);
      Score(env, commitment.issuer, oldStatus, false);
      r := Ok(());
    }

    method CheckDispute(env: Env, caller: Address, id: u64) returns (e: Option<Error>)
      ensures e == DisputeError(Snapshot(), env, caller, id)
    {
      if config.paused { return Some(ProtocolPaused); }
      if caller !in env.signers { return Some(NotSigned); }
      if config.disputeToken.None? { return Some(DisputeTokenNotSet); }
      if !env.funded { return Some(TransferFailed); }
      if id !in book.commitments { return Some(CommitmentNotFound); }
      var commitment := book.commitments[id];
      if caller != commitment.issuer && caller != commitment.counterparty { return Some(Unauthorized); }
      if !IsFinal(commitment.status) { return Some(InvalidTransition); }
      if commitment.attestedAt.None? { return Some(InvalidTransition); }
      var deadline := SaturatingAdd(commitment.attestedAt.value, DISPUTE_WINDOW_SECONDS);
      if env.now > deadline { return Some(DisputeWindowExpired); }
      e := None;
    }

    method LockPanel(attestors: seq<Address>)
      modifies this`vault
      ensures vault == old(vault).(stakes := LockAll(old(vault).stakes, attestors))
    {
      for i := 0 to |attestors|
        invariant vault == old(vault).(stakes := LockAll(old(vault).stakes, attestors[..i]))
      {
        assert attestors[..i + 1][..i] == attestors[..i];
        vault := vault.(stakes := SetLocked(vault.stakes, attestors[i], true));
      }
      assert attestors[..|attestors|] == attestors;
    }

    method ResolveDispute(env: Env, caller: Address, id: u64, finalOutcome: Status) returns (r: Outcome<()>)
      modifies this, reputation, trust
      ensures Agrees(r, Registry.Resolve(old(Snapshot()), env, caller, id, finalOutcome), old(Snapshot()), Snapshot())
    {
      var e := CheckResolve(env, caller, id, finalOutcome);
      if e.Some? { return Err(e.value); }
      if caller == book.commitments[id].resolver && book.commitments[id].resolver !in config.arbitrators.value {
        r := FinalizeResolution(env, id, finalOutcome);
        return;
      }
      var tally := if id in ballots.committee then ballots.committee[id] else DisputeVotes(NO_VOTES, map[]);
      tally := RecordVote(tally, caller, finalOutcome);
      var saved := ballots;
      ballots := ballots.(committee := ballots.committee[id := tally]);
      if VotesFor(tally.counts, finalOutcome) > |config.arbitrators.value| / 2 {
        r := FinalizeResolution(env, id, finalOutcome);
        if r.Err? { ballots := saved; }
      } else {
        r := Ok(());
      }
    }

    method CheckResolve(env: Env, caller: Address, id: u64, finalOutcome: Status) returns (e: Option<Error>)
      ensures e == ResolveError(Snapshot(), env, caller, id, finalOutcome)
    {
      if config.paused { return Some(ProtocolPaused); }
      if caller !in env.signers { return Some(NotSigned); }
      if !IsFinal(finalOutcome) { return Some(InvalidOutcome); }
      if id !in book.commitments { return Some(CommitmentNotFound); }
      var commitment := book.commitments[id];
      if commitment.attestors != [] { return Some(UseVotingResolution); }
      if commitment.status != Status.Disputed { return Some(InvalidTransition); }
      if config.arbitrators.None? { return Some(NotInitialized); }
      var committeeRouted := commitment.resolver in config.arbitrators.value;
      if caller == commitment.resolver && !committeeRouted { return None; }
      if !committeeRouted || caller !in config.arbitrators.value { return Some(NotArbitrator); }
      var tally := if id in ballots.committee then ballots.committee[id] else DisputeVotes(NO_VOTES, map[]);
      if caller in tally.voters { return Some(AlreadyVoted); }
      e := None;
    }

    method FinalizeResolution(env: Env, id: u64, finalOutcome: Status) returns (r: Outcome<()>)
      requires id in book.commitments
      modifies this, reputation, trust
      ensures Agrees(r, Finalized(old(Snapshot()), env, id, finalOutcome), old(Snapshot()), Snapshot())
    {
      var commitment := book.commitments[id];
      if config.disputeToken.Some? && id in vault.escrows {
        var amount := vault.escrows[id];
        if amount < 0 || Held(vault.held, config.disputeToken.value) < amount { return Err(TransferFailed); }
        vault := vault.(held := Debit(vault.held, config.disputeToken.value, amount));
        vault := vault.(escrows := vault.escrows - {id});
        var winner := if finalOutcome == Status.Fulfilled then commitment.issuer else commitment.counterparty;
        payouts := payouts + [EscrowPaid(id, winner, config.disputeToken.value, amount)];
      }
      book := book.(commitments := book.commitments[id := commitment.(status := finalOutcome, attestedAt := None)]);
      Score(env, commitment.issuer, finalOutcome, true);
      r := Ok(());
    }

    // ------------------------------------------------------------ panel votes

    method CastDisputeVote(env: Env, attestor: Address, id: u64, outcome: Status) returns (r: Outcome<()>)
      modifies this, reputation, trust
      ensures Agrees(r, Registry.CastVote(old(Snapshot()), env, attestor, id, outcome), old(Snapshot()), Snapshot())
    {
      var e := CheckVote(env, attestor, id, outcome);
      if e.Some? { return Err(e.value); }
      var commitment := book.commitments[id];
      var tally := if id in ballots.tallies then ballots.tallies[id] else NO_VOTES;
      var n := VotesFor(tally, outcome) + 1;
      tally := WithVotes(tally, outcome, n);
      var saved := ballots;
      ballots := ballots.(tallies := ballots.tallies[id := tally]);
      ballots := ballots.(records := ballots.records[(id, attestor) := outcome]);
      assert Snapshot() == WithVote(old(Snapshot()), attestor, id, outcome);
      if n >= VoteThreshold(commitment.counters) {
        r := Conclude(env, id, true, outcome);
        if r.Err? { ballots := saved; }
      } else {
        r := Ok(());
      }
    }

    method CheckVote(env: Env, attestor: Address, id: u64, outcome: Status) returns (e: Option<Error>)
      ensures e == VoteError(Snapshot(), env, attestor, id, outcome)
    {
      if attestor !in env.signers { return Some(NotSigned); }
      if id !in book.commitments { return Some(CommitmentNotFound); }
      var commitment := book.commitments[id];
      if commitment.status != Status.Disputed { return Some(InvalidTransition); }
      if VoteThreshold(commitment.counters) == 0 { return Some(InvalidTransition); }
      if !IsFinal(outcome) { return Some(InvalidOutcome); }
      var attestedAt := if commitment.attestedAt.Some? then commitment.attestedAt.value else commitment.createdAt;
      var deadline := SaturatingAdd(attestedAt, ATTESTOR_VOTE_TIMEOUT_SECONDS);
      if env.now > deadline { return Some(VotingClosed); }
      if attestor !in commitment.attestors { return Some(NotAttestor); }
      var stake := StakeOf(vault.stakes, attestor);
      if stake.staked <= 0 { return Some(InsufficientStake); }
      if !stake.locked { return Some(DisputeActive); }
      if (id, attestor) in ballots.records { return Some(AttestorAlreadyVoted); }
      var tally := if id in ballots.tallies then ballots.tallies[id] else NO_VOTES;
      if VotesFor(tally, outcome) == U32_MAX { return Some(Overflow); }
      e := None;
    }

    method CheckDisputeTimeout(env: Env, id: u64) returns (r: Outcome<()>)
      modifies this, reputation, trust
      ensures Agrees(r, Registry.CheckTimeout(old(Snapshot()), env, id), old(Snapshot()), Snapshot())
    {
      if id !in book.commitments { return Err(CommitmentNotFound); }
      var commitment := book.commitments[id];
      if commitment.status != Status.Disputed { return Err(InvalidTransition); }
      if VoteThreshold(commitment.counters) == 0 { return Err(InvalidTransition); }
      var attestedAt := if commitment.attestedAt.Some? then commitment.attestedAt.value else commitment.createdAt;
      var deadline := SaturatingAdd(attestedAt, ATTESTOR_VOTE_TIMEOUT_SECONDS);
      if env.now <= deadline { return Err(VotesNotMet); }
      r := Conclude(env, id, false, Status.Breached);
    }

    /** The outcome is persisted, the panel released and the tally cleared. */
    method Conclude(env: Env, id: u64, slashDissenters: bool, outcome: Status) returns (r: Outcome<()>)
      requires id in book.commitments
      modifies this, reputation, trust
      ensures Agrees(r, Concluded(old(Snapshot()), env, id, slashDissenters, outcome), old(Snapshot()), Snapshot())
    {
      var commitment := book.commitments[id];
      var released := UnlockPanel(id, commitment.attestors, slashDissenters, outcome);
      if !released { return Err(Overflow); }
      ballots := ballots.(tallies := ballots.tallies - {id});
      book := book.(commitments := book.commitments[id := commitment.(status := outcome, attestedAt := None)]);
      Score(env, commitment.issuer, outcome, true);
      r := Ok(());
    }

    method UnlockPanel(id: u64, panel: seq<Address>, slashDissenters: bool, winning: Status) returns (ok: bool)
      modifies this`vault, this`ballots, this`slashed
      ensures var after := ReleaseAll(Bench(old(vault).stakes, old(ballots).records, old(slashed)),
                                      id, panel, slashDissenters, winning);
              && ok == after.Some?
              && vault == (if ok then old(vault).(stakes := after.value.stakes) else old(vault))
              && ballots == (if ok then old(ballots).(records := after.value.records) else old(ballots))
              && slashed == (if ok then after.value.slashed else old(slashed))
    {
      var stakes, records := vault.stakes, ballots.records;
      ghost var forfeited := slashed;
      ghost var before := Bench(vault.stakes, ballots.records, slashed);
      for i := 0 to |panel|
        invariant vault == old(vault) && ballots == old(ballots) && slashed == old(slashed)
        invariant ReleaseAll(before, id, panel[..i], slashDissenters, winning)
                  == Some(Bench(stakes, records, forfeited))
      {
        assert panel[..i + 1][..i] == panel[..i];
        ReleaseAllFails(before, id, panel, slashDissenters, winning, i + 1);
        ok, stakes, records, forfeited :=
          ReleaseEntry(stakes, records, forfeited, id, panel[i], slashDissenters, winning);
        if !ok { return; }
      }
      assert panel[..|panel|] == panel;
      vault := vault.(stakes := stakes);
      ballots := ballots.(records := records);
      slashed := forfeited;
      ok := true;
    }

    static method ReleaseEntry(stakes: Stakes, records: VoteRecords, ghost forfeited: nat, id: u64, attestor: Address,
                               slashDissenters: bool, winning: Status)
      returns (ok: bool, newStakes: Stakes, newRecords: VoteRecords, ghost newForfeited: nat)
      ensures ReleaseOne(Bench(stakes, records, forfeited), id, attestor, slashDissenters, winning)
              == if ok then Some(Bench(newStakes, newRecords, newForfeited)) else None
    {
      newStakes, newRecords, newForfeited := stakes, records, forfeited;
      var castAVote := (id, attestor) in records;
      var votedWithWinner := castAVote && records[(id, attestor)] == winning;
      if ShouldSlash(slashDissenters, castAVote, votedWithWinner) == Slash {
        var cut := Slashed(stakes, attestor);
        if cut.None? { return false, stakes, records, forfeited; }
        newStakes, newForfeited := cut.value.0, forfeited + cut.value.1;
      }
      newStakes := SetLocked(newStakes, attestor, false);
      newRecords := records - {(id, attestor)};
      ok := true;
    }

    // ---------------------------------------------------------------- staking

    method StakeAttestor(env: Env, attestor: Address, amount: i128) returns (r: Outcome<()>)
      modifies this
      ensures Agrees(r, Registry.Stake(old(Snapshot()), env, attestor, amount), old(Snapshot()), Snapshot())
    {
      if attestor !in env.signers { return Err(NotSigned); }
      if amount <= 0 { return Err(ZeroAmount); }
      if config.stakingToken.None? { return Err(StakingTokenNotSet); }
      var stake := StakeOf(vault.stakes, attestor);
      if stake.staked + amount >= I128_LIMIT { return Err(Overflow); }
      if !env.funded { return Err(TransferFailed); }
      stake := stake.(staked := stake.staked + amount);
      vault := vault.(stakes := vault.stakes[attestor := stake]);
      vault := vault.(held := Credit(vault.held, config.stakingToken.value, amount));
      r := Ok(());
    }

    method RequestUnstake(env: Env, attestor: Address) returns (r: Outcome<()>)
      modifies this
      ensures Agrees(r, Registry.RequestUnstake(old(Snapshot()), env, attestor), old(Snapshot()), Snapshot())
    {
      if attestor !in env.signers { return Err(NotSigned); }
      var stake := StakeOf(vault.stakes, attestor);
      if stake.staked <= 0 { return Err(InsufficientStake); }
      if stake.locked { return Err(DisputeActive); }
      if stake.unbondingUntil.Some? { return Err(UnbondingPending); }
      if env.now + UNBONDING_PERIOD_SECONDS > U64_MAX { return Err(Overflow); }
      stake := stake.(unbondingUntil := Some(env.now + UNBONDING_PERIOD_SECONDS));
      vault := vault.(stakes := vault.stakes[attestor := stake]);
      r := Ok(());
    }

    method FinalizeUnstake(env: Env, attestor: Address) returns (r: Outcome<()>)
      modifies this
      ensures Agrees(r, Registry.FinalizeUnstake(old(Snapshot()), env, attestor), old(Snapshot()), Snapshot())
    {
      if attestor !in env.signers { return Err(NotSigned); }
      var stake := StakeOf(vault.stakes, attestor);
      if stake.unbondingUntil.None? { return Err(InsufficientStake); }
      if env.now < stake.unbondingUntil.value { return Err(UnbondingNotElapsed); }
      if stake.locked { return Err(DisputeActive); }
      if config.stakingToken.None? { return Err(StakingTokenNotSet); }
      var amount := stake.staked;
      if amount < 0 || Held(vault.held, config.stakingToken.value) < amount { return Err(TransferFailed); }
      vault := vault.(stakes := vault.stakes - {attestor});
      vault := vault.(held := Debit(vault.held, config.stakingToken.value, amount));
      payouts := payouts + [StakeReturned(attestor, config.stakingToken.value, amount)];
      r := Ok(());
    }

    // ----------------------------------------------------------------- schema

    method Upgrade(newSchemaVersion: u32) returns (r: Outcome<()>)
      modifies reputation
      ensures Agrees(r, UpgradeSchema(old(Snapshot()), newSchemaVersion), old(Snapshot()), Snapshot())
    {
      var done := reputation.Upgrade(newSchemaVersion);
      r := if done.Panic? then Err(FromMigration(done.error)) else Ok(());
    }

    /** Returns how many rows moved. */
    method MigrateReputationBatch(env: Env, addresses: seq<Address>) returns (r: Outcome<nat>)
      modifies reputation
      ensures var spec := MigrateBatch(old(Snapshot()), env, addresses);
              if spec.Ok?
              then r == Ok(R.MovedCount(old(Snapshot()).reputation, addresses, env.now)) && Snapshot() == spec.value
              else r == Err(spec.error) && Snapshot() == old(Snapshot())
    {
      if config.paused { return Err(ProtocolPaused); }
      var done := reputation.MigrateReputationBatch(addresses, env.now);
      r := if done.Panic? then Err(FromMigration(done.error)) else Ok(done.value);
    }
  }

  /** A prefix of a batch that panics makes the whole batch panic, with the same error. */
  lemma {:induction false} CreateAllFails(s: State, env: Env, ps: seq<CommitmentParams>, n: nat)
    requires n <= |ps|
    ensures CreateAll(s, env, ps[..n]).Err? ==> CreateAll(s, env, ps) == CreateAll(s, env, ps[..n])
  {
    if n == |ps| {
      assert ps[..n] == ps;
    } else {
      CreateAllFails(s, env, ps[..|ps| - 1], n);
      assert ps[..|ps| - 1][..n] == ps[..n];
    }
  }

  /** An entry whose slash overflows stops the whole release. */
  lemma {:induction false} ReleaseAllFails(b: Bench, id: u64, panel: seq<Address>, slash: bool, winning: Status, n: nat)
    requires n <= |panel|
    ensures ReleaseAll(b, id, panel[..n], slash, winning).None? ==> ReleaseAll(b, id, panel, slash, winning).None?
  {
    if n == |panel| {
      assert panel[..n] == panel;
    } else {
      ReleaseAllFails(b, id, panel[..|panel| - 1], slash, winning, n);
      assert panel[..|panel| - 1][..n] == panel[..n];
    }
  }
}
