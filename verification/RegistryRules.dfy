/**
 What each entrypoint of the registry demands and what it leaves behind, in reachable states:
 the exact condition for its success, and the effects that the run invariants do not fix.
 */
module RegistryRules {
  import opened Wrappers
  import opened Integers
  import opened Commitments
  import opened Staking
  import opened Registry
  import opened RegistryPanels
  import opened RegistryCommittee
  import M = RegistryMilestones
  import V = RegistryVault

  // ------------------------------------------------------------------- set-up

  /** The committee is appointed once, by everybody it names and the admin together, each member once. */
  lemma InitializeRule(s: State, env: Env, arbitrators: seq<Address>, admin: Address)
    ensures var r := Initialize(s, env, arbitrators, admin);
            && (r.Ok? <==> s.config.arbitrators.None? && s.config.admin.None? && arbitrators != []
                           && admin in env.signers && forall a :: a in arbitrators ==> a in env.signers)
            && (r.Ok? ==>
                  var c := r.value.config;
                  && r.value == s.(config := c)
                  && c == s.config.(admin := Some(admin), arbitrators := c.arbitrators) && c.arbitrators.Some?
                  && (forall a :: a in c.arbitrators.value <==> a in arbitrators) && Distinct(c.arbitrators.value))
  {
    DedupKeepsMembers(arbitrators);
    DedupIsDistinct(arbitrators);
  }

  /** Only the admin pauses or resumes; while paused no commitment is created, attested, disputed or resolved. */
  lemma PauseRule(s: State, env: Env, admin: Address, paused: bool, later: Env, call: Call)
    ensures var r := SetPaused(s, env, admin, paused);
            && (r.Ok? <==> admin in env.signers && s.config.admin == Some(admin))
            && (r.Ok? ==> r.value == s.(config := s.config.(paused := paused)))
    ensures s.config.paused && (call.CallCreate? || call.CallCreateBatch? || call.CallAttest? || call.CallDispute?
                                || call.CallResolve? || call.CallMigrate?) ==>
              Invoke(s, later, call) == Err(ProtocolPaused)
  {
  }

  /** Each token is set once, by an arbitrator. */
  lemma TokenRule(s: State, env: Env, caller: Address, token: Address)
    ensures var may := caller in env.signers && s.config.arbitrators.Some? && caller in s.config.arbitrators.value;
            && (SetStakingToken(s, env, caller, token).Ok? <==> may && s.config.stakingToken.None?)
            && (SetDisputeToken(s, env, caller, token).Ok? <==> may && s.config.disputeToken.None?)
            && (SetStakingToken(s, env, caller, token).Ok? ==>
                  SetStakingToken(s, env, caller, token).value == s.(config := s.config.(stakingToken := Some(token))))
            && (SetDisputeToken(s, env, caller, token).Ok? ==>
                  SetDisputeToken(s, env, caller, token).value == s.(config := s.config.(disputeToken := Some(token))))
  {
  }

  // -------------------------------------------------------------- commitments

  /** A commitment that records what its issuer asked for, pending, with no milestone attested. */
  ghost predicate Fresh(c: Commitment, id: u64, p: CommitmentParams, milestones: u32, now: u64) {
    && c.id == id && c.issuer == p.issuer && c.counterparty == p.counterparty && c.termsHash == p.termsHash
    && c.dueAt == p.dueAt && c.status == Status.Pending && c.createdAt == now && c.attestedAt.None?
    && c.resolver == p.resolver && c.oracle == p.oracle && c.schemaId == p.schemaId && c.attestors == p.attestors
    && MilestoneCount(c.counters) == milestones && MilestonesAttested(c.counters) == 0
    && LateMilestones(c.counters) == 0 && VoteThreshold(c.counters) == p.voteThreshold
  }

  /**
   A commitment is created exactly when the registry is not paused, its issuer signs, it is
   due later, it has 1 to 256 milestones, its panel and its threshold fit each other and the
   counters, and an id is left. It is stored under the next id, and nothing else changes.
   */
  lemma CreateRule(s: State, env: Env, p: CommitmentParams, milestones: u32)
    ensures var r := CreateCommitment(s, env, p, milestones);
            && (r.Ok? <==> !s.config.paused && p.issuer in env.signers && p.dueAt > env.now
                           && 1 <= milestones <= 256 && (p.attestors == [] <==> p.voteThreshold == 0)
                           && p.voteThreshold <= |p.attestors| && p.voteThreshold < 0x1_0000
                           && s.book.nextId < 0xFFFF_FFFF_FFFF_FFFF)
            && (r.Ok? ==>
                  var b := r.value.book;
                  && b.nextId == s.book.nextId + 1 && s.book.nextId in b.commitments
                  && Fresh(b.commitments[s.book.nextId], s.book.nextId, p, milestones, env.now)
                  && b.commitments == s.book.commitments[s.book.nextId := b.commitments[s.book.nextId]]
                  && r.value == s.(book := s.book.(nextId := b.nextId, commitments := b.commitments)))
  {
    PackRoundTrip(milestones, 0, 0, p.voteThreshold);
  }

  /**
   In every reachable state a milestone is attested exactly when the registry is not paused,
   the outcome is final, the commitment is pending, the caller is its issuer, counterparty
   or oracle and signs, and the index, if given, is the next one. The time of a resolving
   attestation is kept, which opens its dispute window.
   */
  lemma AttestRule(script: Script, env: Env, caller: Address, id: u64, index: Option<u32>, outcome: Status)
    ensures var s := Run(script);
            var r := Attest(s, env, caller, id, index, outcome);
            && (r.Ok? <==>
                && !s.config.paused && caller in env.signers && IsFinal(outcome) && id in s.book.commitments
                && var c := s.book.commitments[id];
                && (caller == c.issuer || caller == c.counterparty || c.oracle == Some(caller))
                && c.status == Status.Pending && (index.None? || index.value == MilestonesAttested(c.counters)))
            && (r.Ok? ==>
                  && id in r.value.book.commitments
                  && var c := r.value.book.commitments[id];
                  c.attestedAt == if c.status == Status.Pending then None else Some(env.now))
  {
    M.MilestonesSoundInEveryRun(script);
    var s := Run(script);
    if id in s.book.commitments {
      var c := s.book.commitments[id];
      assert M.Sound(s.book, id);
      if c.status == Status.Pending { M.RecordMoves(c.counters, outcome == Status.Late); }
    }
  }

  // ----------------------------------------------------------------- disputes

  /**
   In every reachable state a dispute is opened exactly when the registry is not paused, the
   issuer or the counterparty signs and pays, a dispute token is set, and the commitment was
   resolved by an attestation at most a week ago. It escrows the stake of 100000000 and locks
   the stake of every panel member who has one, and no other.
   */
  lemma DisputeRule(script: Script, env: Env, caller: Address, id: u64)
    ensures var s := Run(script);
            var r := Dispute(s, env, caller, id);
            && (r.Ok? <==>
                && !s.config.paused && caller in env.signers && env.funded && s.config.disputeToken.Some?
                && id in s.book.commitments
                && var c := s.book.commitments[id];
                && (caller == c.issuer || caller == c.counterparty) && IsFinal(c.status) && c.attestedAt.Some?
                && env.now <= WeekAfter(c.attestedAt.value))
            && (r.Ok? ==>
                  var v, panel := r.value.vault, s.book.commitments[id].attestors;
                  && v.escrows == s.vault.escrows[id := 100_000_000]
                  && Held(v.held, s.config.disputeToken.value) == Held(s.vault.held, s.config.disputeToken.value)
                                                                  + 100_000_000
                  && LockedExactly(s.vault.stakes, v.stakes, panel))
  {
    V.VaultSoundInEveryRun(script);
    if Dispute(Run(script), env, caller, id).Ok? {
      LockAllLocks(Run(script).vault.stakes, Run(script).book.commitments[id].attestors);
    }
  }

  /** Members who have a stake are locked, everybody else's record is as it was. */
  ghost predicate LockedExactly(before: Stakes, after: Stakes, panel: seq<Address>) {
    && after.Keys == before.Keys
    && forall a :: a in before ==> after[a] == if a in panel then before[a].(locked := true) else before[a]
  }

  lemma {:induction false} LockAllLocks(stakes: Stakes, panel: seq<Address>)
    requires V.StakesPositive(stakes)
    ensures LockedExactly(stakes, LockAll(stakes, panel), panel)
  {
    if panel != [] {
      var front, last := panel[..|panel| - 1], panel[|panel| - 1];
      LockAllLocks(stakes, front);
      V.LockAllKeepsAmounts(stakes, front);
      assert forall a :: a in panel <==> a in front || a == last;
    }
  }

  /**
   In every reachable state a dispute without a panel is resolved by its own resolver, or,
   when that is an arbitrator, voted on by each arbitrator once; nobody else is heard.
   */
  lemma ResolveRule(script: Script, env: Env, caller: Address, id: u64, outcome: Status)
    ensures var s := Run(script);
            Resolve(s, env, caller, id, outcome).Ok? <==>
              && !s.config.paused && caller in env.signers && IsFinal(outcome) && id in s.book.commitments
              && s.config.arbitrators.Some?
              && var c, committee := s.book.commitments[id], s.config.arbitrators.value;
              && c.attestors == [] && c.status == Status.Disputed
              && (if c.resolver in committee then caller in committee && caller !in VotesOn(s, id).voters
                  else caller == c.resolver)
  {
    V.VaultSoundInEveryRun(script);
    if ResolveError(Run(script), env, caller, id, outcome).None? {
      V.ResolveKeepsVault(Run(script), env, caller, id, outcome);
    }
  }

  // ------------------------------------------------------------------- stakes

  /** Staking adds what was paid to the attestor's own stake, whatever its lock, and to no other. */
  lemma StakeRule(s: State, env: Env, attestor: Address, amount: i128)
    ensures var r := Stake(s, env, attestor, amount);
            var before := StakeOf(s.vault.stakes, attestor);
            && (r.Ok? <==> attestor in env.signers && amount > 0 && s.config.stakingToken.Some? && env.funded
                           && before.staked + amount < I128_LIMIT)
            && (r.Ok? ==>
                  var v, token := r.value.vault, s.config.stakingToken.value;
                  && StakeOf(v.stakes, attestor) == before.(staked := before.staked + amount)
                  && (forall a :: a != attestor ==> StakeOf(v.stakes, a) == StakeOf(s.vault.stakes, a))
                  && Held(v.held, token) == Held(s.vault.held, token) + amount)
  {
  }

  /**
   In every reachable state an unlocked stake that is not unbonding can be asked back, and is
   then paid out, unless anything intervenes, exactly from 14 days in seconds after.
   */
  lemma UnstakeRule(script: Script, env: Env, attestor: Address, later: Env)
    ensures var s := Run(script);
            var stake := StakeOf(s.vault.stakes, attestor);
            RequestUnstake(s, env, attestor).Ok? <==>
              && attestor in env.signers && attestor in s.vault.stakes && !stake.locked && stake.unbondingUntil.None?
              && env.now + 1_209_600 <= 0xFFFF_FFFF_FFFF_FFFF
    ensures var s := Run(script);
            RequestUnstake(s, env, attestor).Ok? ==>
              var t := RequestUnstake(s, env, attestor).value;
              FinalizeUnstake(t, later, attestor).Ok? <==>
                attestor in later.signers && later.now >= env.now + 1_209_600
  {
    var s := Run(script);
    V.VaultSoundInEveryRun(script);
    if RequestUnstake(s, env, attestor).Ok? {
      var t := RequestUnstake(s, env, attestor).value;
      V.StepKeepsVault(s, env, CallRequestUnstake(attestor));
      assert V.VaultSound(t);
      V.WithdrawalIsFunded(t, later, attestor);
    }
  }
}
