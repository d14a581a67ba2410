/**
 Conservation in the registry's vault: over all runs the contract holds exactly the
 recorded stakes, the slashed amounts and the recorded escrows, so no payout lacks funds.
 */
module RegistryVault {
  import opened Wrappers
  import opened Integers
  import opened FiniteSums
  import opened Commitments
  import opened Staking
  import opened Registry
  import opened RegistryEffects
  import M = RegistryMilestones

  function Amounts(stakes: Stakes): map<Address, int> {
    map a | a in stakes :: stakes[a].staked
  }

  ghost predicate StakesPositive(stakes: Stakes) {
    forall a :: a in stakes ==> stakes[a].staked > 0
  }

  /** What the records say the contract holds of a token. */
  ghost function Recorded(s: State, token: Address): int {
    (if s.config.stakingToken == Some(token) then Total(Amounts(s.vault.stakes)) + s.slashed else 0)
    + (if s.config.disputeToken == Some(token) then Total(s.vault.escrows) else 0)
  }

  ghost predicate Balanced(s: State) {
    forall token :: Held(s.vault.held, token) == Recorded(s, token)
  }

  ghost predicate TokensBehindRecords(s: State) {
    && (s.config.stakingToken.None? ==> s.vault.stakes == map[] && s.slashed == 0)
    && (s.config.disputeToken.None? ==> s.vault.escrows == map[])
  }

  predicate Settled(c: Commitment) {
    IsFinal(c.status) && c.attestedAt.None?
  }

  /**
   Exactly the open disputes have an escrow, and besides them every dispute that a panel
   has settled: the panel route never pays its escrow out.
   */
  predicate HasEscrow(b: Book, id: u64) {
    id in b.commitments
    && var c := b.commitments[id]; c.status == Status.Disputed || (c.attestors != [] && Settled(c))
  }

  ghost predicate EscrowsExact(s: State) {
    forall id: u64 :: (id in s.vault.escrows <==> HasEscrow(s.book, id))
                      && (id in s.vault.escrows ==> s.vault.escrows[id] == DISPUTE_STAKE_AMOUNT)
  }

  ghost predicate VaultSound(s: State) {
    StakesPositive(s.vault.stakes) && Balanced(s) && TokensBehindRecords(s) && EscrowsExact(s)
  }

  // ----------------------------------------------------------- locks and cuts

  lemma SetLockedKeepsAmounts(stakes: Stakes, a: Address, locked: bool)
    requires StakesPositive(stakes)
    ensures StakesPositive(SetLocked(stakes, a, locked)) && Amounts(SetLocked(stakes, a, locked)) == Amounts(stakes)
    ensures stakes == map[] ==> SetLocked(stakes, a, locked) == map[]
  {
  }

  lemma {:induction false} LockAllKeepsAmounts(stakes: Stakes, attestors: seq<Address>)
    requires StakesPositive(stakes)
    ensures StakesPositive(LockAll(stakes, attestors)) && Amounts(LockAll(stakes, attestors)) == Amounts(stakes)
    ensures stakes == map[] ==> LockAll(stakes, attestors) == map[]
  {
    if attestors != [] {
      LockAllKeepsAmounts(stakes, attestors[..|attestors| - 1]);
      SetLockedKeepsAmounts(LockAll(stakes, attestors[..|attestors| - 1]), attestors[|attestors| - 1], true);
    }
  }

  /** A slash moves the cut from the stake to the slashed total. */
  lemma SlashConserves(stakes: Stakes, a: Address)
    requires StakesPositive(stakes) && Slashed(stakes, a).Some?
    ensures var (after, cut) := Slashed(stakes, a).value;
            && StakesPositive(after) && Total(Amounts(after)) + cut == Total(Amounts(stakes))
            && (stakes == map[] ==> after == map[] && cut == 0)
  {
    var stake := StakeOf(stakes, a);
    CutSplitsStake(stake.staked, SLASH_PERCENT);
    var (after, cut) := Slashed(stakes, a).value;
    if cut > 0 {
      assert Amounts(after) == Amounts(stakes)[a := after[a].staked];
      TotalUpdate(Amounts(stakes), a, after[a].staked);
    }
  }

  lemma ReleaseOneConserves(b: Bench, id: u64, a: Address, slash: bool, winning: Status)
    requires StakesPositive(b.stakes) && ReleaseOne(b, id, a, slash, winning).Some?
    ensures var r := ReleaseOne(b, id, a, slash, winning).value;
            && StakesPositive(r.stakes) && Total(Amounts(r.stakes)) + r.slashed == Total(Amounts(b.stakes)) + b.slashed
            && (b.stakes == map[] ==> r.stakes == map[] && r.slashed == b.slashed)
  {
    var voted := (id, a) in b.records;
    if ShouldSlash(slash, voted, voted && b.records[(id, a)] == winning) == Slash {
      SlashConserves(b.stakes, a);
      SetLockedKeepsAmounts(Slashed(b.stakes, a).value.0, a, false);
    } else {
      SetLockedKeepsAmounts(b.stakes, a, false);
    }
  }

  lemma {:induction false} ReleaseAllConserves(b: Bench, id: u64, panel: seq<Address>, slash: bool, winning: Status)
    requires StakesPositive(b.stakes) && ReleaseAll(b, id, panel, slash, winning).Some?
    ensures var r := ReleaseAll(b, id, panel, slash, winning).value;
            && StakesPositive(r.stakes) && Total(Amounts(r.stakes)) + r.slashed == Total(Amounts(b.stakes)) + b.slashed
            && (b.stakes == map[] ==> r.stakes == map[] && r.slashed == b.slashed)
  {
    if panel != [] {
      var front := panel[..|panel| - 1];
      ReleaseAllConserves(b, id, front, slash, winning);
      ReleaseOneConserves(ReleaseAll(b, id, front, slash, winning).value, id, panel[|panel| - 1], slash, winning);
    }
  }

  // -------------------------------------------------------------------- steps

  /** The recorded sum of stakes and slashes moved by `ds`, that of escrows by `de`, and so did the balances. */
  lemma Rebalanced(s: State, t: State, ds: int, de: int)
    requires Balanced(s) && t.config == s.config && TokensBehindRecords(s)
    requires Total(Amounts(t.vault.stakes)) + t.slashed == Total(Amounts(s.vault.stakes)) + s.slashed + ds
    requires Total(t.vault.escrows) == Total(s.vault.escrows) + de
    requires forall token :: Held(t.vault.held, token) == Held(s.vault.held, token)
                             + (if s.config.stakingToken == Some(token) then ds else 0)
                             + (if s.config.disputeToken == Some(token) then de else 0)
    ensures Balanced(t)
  {
  }

  lemma DisputeKeepsVault(s: State, env: Env, caller: Address, id: u64)
    requires VaultSound(s) && Dispute(s, env, caller, id).Ok?
    ensures VaultSound(Dispute(s, env, caller, id).value) && id !in s.vault.escrows
  {
    var t := Dispute(s, env, caller, id).value;
    DisputeEffect(s, env, caller, id);
    LockAllKeepsAmounts(s.vault.stakes, s.book.commitments[id].attestors);
    assert !HasEscrow(s.book, id);
    TotalUpdate(s.vault.escrows, id, DISPUTE_STAKE_AMOUNT);
    Rebalanced(s, t, 0, DISPUTE_STAKE_AMOUNT);
  }

  /** A settled dispute without a panel pays its escrow out; the funds are there. */
  lemma FinalizedKeepsVault(s: State, env: Env, id: u64, outcome: Status)
    requires VaultSound(s) && id in s.book.commitments && s.book.commitments[id].status == Status.Disputed
    requires s.book.commitments[id].attestors == [] && IsFinal(outcome)
    ensures Finalized(s, env, id, outcome).Ok? && VaultSound(Finalized(s, env, id, outcome).value)
    ensures s.config.disputeToken.Some? && id in s.vault.escrows
  {
    assert HasEscrow(s.book, id);
    var token := s.config.disputeToken.value;
    ValueWithinTotal(s.vault.escrows, id);
    TotalNonNegative(s);
    FinalizedEffect(s, env, id, outcome);
    var t := Finalized(s, env, id, outcome).value;
    TotalRemove(s.vault.escrows, id);
    Rebalanced(s, t, 0, -DISPUTE_STAKE_AMOUNT);
  }

  lemma TotalNonNegative(s: State)
    requires VaultSound(s)
    ensures Total(Amounts(s.vault.stakes)) >= 0 && Total(s.vault.escrows) >= 0
  {
    SumOverNonNegative(Amounts(s.vault.stakes), Amounts(s.vault.stakes).Keys);
    SumOverNonNegative(s.vault.escrows, s.vault.escrows.Keys);
  }

  lemma ResolveKeepsVault(s: State, env: Env, caller: Address, id: u64, outcome: Status)
    requires VaultSound(s) && ResolveError(s, env, caller, id, outcome).None?
    ensures Resolve(s, env, caller, id, outcome).Ok? && VaultSound(Resolve(s, env, caller, id, outcome).value)
  {
    if RouteOf(s, s.book.commitments[id], caller) == Direct {
      FinalizedKeepsVault(s, env, id, outcome);
    } else {
      var votes := RecordVote(VotesOn(s, id), caller, outcome);
      var voted := s.(ballots := s.ballots.(committee := s.ballots.committee[id := votes]));
      Rebalanced(s, voted, 0, 0);
      if VotesFor(votes.counts, outcome) > |s.config.arbitrators.value| / 2 {
        FinalizedKeepsVault(voted, env, id, outcome);
      }
    }
  }

  lemma ConcludedKeepsVault(s: State, env: Env, id: u64, slash: bool, outcome: Status)
    requires VaultSound(s) && id in s.book.commitments && s.book.commitments[id].status == Status.Disputed
    requires s.book.commitments[id].attestors != [] && IsFinal(outcome) && Concluded(s, env, id, slash, outcome).Ok?
    ensures VaultSound(Concluded(s, env, id, slash, outcome).value)
  {
    var t := Concluded(s, env, id, slash, outcome).value;
    ConcludedEffect(s, env, id, slash, outcome);
    ReleaseAllConserves(Bench(s.vault.stakes, s.ballots.records, s.slashed), id, s.book.commitments[id].attestors,
                        slash, outcome);
    Rebalanced(s, t, 0, 0);
  }

  lemma CastVoteKeepsVault(s: State, env: Env, attestor: Address, id: u64, outcome: Status)
    requires VaultSound(s) && CastVote(s, env, attestor, id, outcome).Ok?
    ensures VaultSound(CastVote(s, env, attestor, id, outcome).value)
  {
    var voted := WithVote(s, attestor, id, outcome);
    Rebalanced(s, voted, 0, 0);
    if VotesFor(TallyOf(voted, id), outcome) >= VoteThreshold(s.book.commitments[id].counters) {
      ConcludedKeepsVault(voted, env, id, true, outcome);
    }
  }

  lemma StakeKeepsVault(s: State, env: Env, attestor: Address, amount: i128)
    requires VaultSound(s) && Stake(s, env, attestor, amount).Ok?
    ensures VaultSound(Stake(s, env, attestor, amount).value)
  {
    var t := Stake(s, env, attestor, amount).value;
    assert Amounts(t.vault.stakes) == Amounts(s.vault.stakes)[attestor := t.vault.stakes[attestor].staked];
    TotalUpdate(Amounts(s.vault.stakes), attestor, t.vault.stakes[attestor].staked);
    Rebalanced(s, t, amount, 0);
  }

  lemma RequestKeepsVault(s: State, env: Env, attestor: Address)
    requires VaultSound(s) && RequestUnstake(s, env, attestor).Ok?
    ensures VaultSound(RequestUnstake(s, env, attestor).value)
  {
    var t := RequestUnstake(s, env, attestor).value;
    assert Amounts(t.vault.stakes) == Amounts(s.vault.stakes);
    Rebalanced(s, t, 0, 0);
  }

  lemma WithdrawKeepsVault(s: State, env: Env, attestor: Address)
    requires VaultSound(s) && FinalizeUnstake(s, env, attestor).Ok?
    ensures VaultSound(FinalizeUnstake(s, env, attestor).value)
  {
    var t := FinalizeUnstake(s, env, attestor).value;
    assert Amounts(t.vault.stakes) == Amounts(s.vault.stakes) - {attestor};
    TotalRemove(Amounts(s.vault.stakes), attestor);
    Rebalanced(s, t, -StakeOf(s.vault.stakes, attestor).staked, 0);
  }

  /** A new or newly attested commitment leaves the escrow discipline as it was. */
  lemma CreateKeepsVault(s: State, env: Env, p: CommitmentParams, count: u32)
    requires VaultSound(s) && M.MilestonesSound(s.book) && Create(s, env, p, count).Ok?
    ensures VaultSound(Create(s, env, p, count).value)
  {
    var t := Create(s, env, p, count).value;
    assert s.book.nextId in s.book.commitments ==> M.Sound(s.book, s.book.nextId);
    Rebalanced(s, t, 0, 0);
    EscrowFrame(s, t, s.book.nextId);
  }

  lemma EscrowFrame(s: State, t: State, id: u64)
    requires EscrowsExact(s) && t.vault == s.vault && id in t.book.commitments
    requires t.book.commitments == s.book.commitments[id := t.book.commitments[id]]
    requires !HasEscrow(s.book, id) && !HasEscrow(t.book, id)
    ensures EscrowsExact(t)
  {
    forall j: u64 ensures HasEscrow(t.book, j) <==> HasEscrow(s.book, j) {}
  }

  lemma {:induction false} CreateAllKeepsVault(s: State, env: Env, ps: seq<CommitmentParams>)
    requires VaultSound(s) && M.MilestonesSound(s.book) && CreateAll(s, env, ps).Ok?
    ensures VaultSound(CreateAll(s, env, ps).value)
  {
    if ps != [] {
      var front := ps[..|ps| - 1];
      CreateAllKeepsVault(s, env, front);
      M.CreateAllKeeps(s, env, front);
      CreateKeepsVault(CreateAll(s, env, front).value, env, ps[|ps| - 1], 1);
    }
  }

  lemma AttestKeepsVault(s: State, env: Env, caller: Address, id: u64, index: Option<u32>, outcome: Status)
    requires VaultSound(s) && Attest(s, env, caller, id, index, outcome).Ok?
    ensures VaultSound(Attest(s, env, caller, id, index, outcome).value)
  {
    var t := Attest(s, env, caller, id, index, outcome).value;
    Rebalanced(s, t, 0, 0);
    EscrowFrame(s, t, id);
  }

  lemma TimeoutKeepsVault(s: State, env: Env, id: u64)
    requires VaultSound(s) && M.MilestonesSound(s.book) && CheckTimeout(s, env, id).Ok?
    ensures VaultSound(CheckTimeout(s, env, id).value)
  {
    assert M.Sound(s.book, id);
    ConcludedKeepsVault(s, env, id, false, Status.Breached);
  }

  lemma SetTokenKeepsVault(s: State, env: Env, caller: Address, token: Address)
    requires VaultSound(s)
    ensures SetStakingToken(s, env, caller, token).Ok? ==> VaultSound(SetStakingToken(s, env, caller, token).value)
    ensures SetDisputeToken(s, env, caller, token).Ok? ==> VaultSound(SetDisputeToken(s, env, caller, token).value)
  {
    assert Amounts(map[]) == map[];
  }

  lemma StepKeepsVault(s: State, env: Env, call: Call)
    requires VaultSound(s) && M.MilestonesSound(s.book)
    ensures VaultSound(Step(s, env, call))
  {
    if Invoke(s, env, call).Ok? {
      match call
      case CallCreate(params, milestoneCount) => CreateKeepsVault(s, env, params, milestoneCount);
      case CallCreateBatch(batch) => CreateAllKeepsVault(s, env, batch);
      case CallAttest(caller, id, index, outcome) => AttestKeepsVault(s, env, caller, id, index, outcome);
      case CallDispute(caller, id) => DisputeKeepsVault(s, env, caller, id);
      case CallResolve(caller, id, outcome) => ResolveKeepsVault(s, env, caller, id, outcome);
      case CallVote(attestor, id, outcome) => CastVoteKeepsVault(s, env, attestor, id, outcome);
      case CallTimeout(id) => TimeoutKeepsVault(s, env, id);
      case CallStake(attestor, amount) => StakeKeepsVault(s, env, attestor, amount);
      case CallRequestUnstake(attestor) => RequestKeepsVault(s, env, attestor);
      case CallFinalizeUnstake(attestor) => WithdrawKeepsVault(s, env, attestor);
      case CallSetStakingToken(caller, token) => SetTokenKeepsVault(s, env, caller, token);
      case CallSetDisputeToken(caller, token) => SetTokenKeepsVault(s, env, caller, token);
      case _ => OtherCallsKeepVault(s, env, call);
    }
  }

  lemma OtherCallsKeepVault(s: State, env: Env, call: Call)
    requires VaultSound(s)
    requires call.CallInitialize? || call.CallSetPaused? || call.CallUpgrade? || call.CallMigrate?
    ensures VaultSound(Step(s, env, call))
  {
    var t := Step(s, env, call);
    assert t.vault == s.vault && t.slashed == s.slashed && t.book == s.book
           && t.config.stakingToken == s.config.stakingToken && t.config.disputeToken == s.config.disputeToken;
    assert forall token :: Recorded(t, token) == Recorded(s, token);
  }

  /** Over all runs, the contract's balance of every token is what the records say. */
  lemma {:induction false} VaultSoundInEveryRun(script: Script)
    ensures VaultSound(Run(script)) && M.MilestonesSound(Run(script).book)
  {
    if script == [] {
      GenesisIsBalanced();
    } else {
      var last := script[|script| - 1];
      VaultSoundInEveryRun(script[..|script| - 1]);
      StepKeepsVault(Run(script[..|script| - 1]), last.0, last.1);
      M.StepKeepsMilestones(Run(script[..|script| - 1]), last.0, last.1);
    }
  }

  lemma GenesisIsBalanced()
    ensures VaultSound(GENESIS)
  {
  }

  lemma SettlementIsFunded(s: State, env: Env, caller: Address, id: u64, outcome: Status)
    requires VaultSound(s)
    ensures Resolve(s, env, caller, id, outcome) != Err(TransferFailed)
  {
    var e := ResolveError(s, env, caller, id, outcome);
    if e.None? {
      ResolveKeepsVault(s, env, caller, id, outcome);
    } else {
      assert e.value != TransferFailed;
    }
  }

  lemma WithdrawalIsFunded(s: State, env: Env, attestor: Address)
    requires VaultSound(s)
    ensures FinalizeUnstake(s, env, attestor) != Err(TransferFailed)
  {
    if s.config.stakingToken.Some? {
      ValueWithinTotal(Amounts(s.vault.stakes), attestor);
      TotalNonNegative(s);
      assert Held(s.vault.held, s.config.stakingToken.value) == Recorded(s, s.config.stakingToken.value);
      assert attestor in s.vault.stakes ==> Amounts(s.vault.stakes)[attestor] == s.vault.stakes[attestor].staked;
    }
  }

  /** No payout the contract owes ever fails for lack of funds. */
  lemma PayoutsAreFunded(script: Script, env: Env, call: Call)
    requires call.CallResolve? || call.CallFinalizeUnstake?
    ensures Invoke(Run(script), env, call) != Err(TransferFailed)
  {
    VaultSoundInEveryRun(script);
    if call.CallResolve? {
      SettlementIsFunded(Run(script), env, call.caller, call.id, call.outcome);
    } else {
      WithdrawalIsFunded(Run(script), env, call.attestor);
    }
  }

  // --------------------------------------------------------- disputed at most once

  lemma {:induction false} CreateAllKeepsOld(s: State, env: Env, ps: seq<CommitmentParams>, id: u64)
    requires CreateAll(s, env, ps).Ok? && id in s.book.commitments && id < s.book.nextId
    ensures var t := CreateAll(s, env, ps).value;
            id in t.book.commitments && id < t.book.nextId && t.book.commitments[id] == s.book.commitments[id]
  {
    if ps != [] { CreateAllKeepsOld(s, env, ps[..|ps| - 1], id); }
  }

  /** The moves a stored commitment can make: attestation, dispute, settlement. */
  ghost predicate Transition(c: Commitment, d: Commitment) {
    || d == c
    || (c.status == Status.Pending && d == c.(status := d.status, attestedAt := d.attestedAt, counters := d.counters))
    || (IsFinal(c.status) && c.attestedAt.Some? && d == c.(status := Status.Disputed))
    || (c.status == Status.Disputed && IsFinal(d.status) && d == c.(status := d.status, attestedAt := None))
  }

  ghost predicate Moves(b: Book, t: Book, id: u64)
    requires id in b.commitments
  {
    id in t.commitments && Transition(b.commitments[id], t.commitments[id])
  }

  lemma AttestMoves(s: State, env: Env, caller: Address, other: u64, index: Option<u32>, outcome: Status, id: u64)
    requires id in s.book.commitments && Attest(s, env, caller, other, index, outcome).Ok?
    ensures Moves(s.book, Attest(s, env, caller, other, index, outcome).value.book, id)
  {
  }

  lemma MovedMoves(b: Book, other: u64, status: Status, id: u64)
    requires id in b.commitments && other in b.commitments
    requires var c := b.commitments[other];
             if status == Status.Disputed then IsFinal(c.status) && c.attestedAt.Some?
             else c.status == Status.Disputed && IsFinal(status)
    ensures Moves(b, Moved(b, other, status), id)
  {
  }

  lemma CreateMoves(s: State, env: Env, p: CommitmentParams, count: u32, id: u64)
    requires M.MilestonesSound(s.book) && id in s.book.commitments && Create(s, env, p, count).Ok?
    ensures Moves(s.book, Create(s, env, p, count).value.book, id)
  {
    assert M.Sound(s.book, id);
  }

  lemma BatchMoves(s: State, env: Env, batch: seq<CommitmentParams>, id: u64)
    requires M.MilestonesSound(s.book) && id in s.book.commitments && CreateBatch(s, env, batch).Ok?
    ensures Moves(s.book, CreateBatch(s, env, batch).value.book, id)
  {
    assert M.Sound(s.book, id);
    CreateAllKeepsOld(s, env, batch, id);
  }

  lemma UnchangedMoves(b: Book, id: u64)
    requires id in b.commitments
    ensures Moves(b, b, id)
  {
  }

  /** A dispute or settlement of one commitment, or no change at all. */
  lemma DisputeMoves(s: State, env: Env, call: Call, id: u64)
    requires id in s.book.commitments && Invoke(s, env, call).Ok?
    requires call.CallDispute? || call.CallResolve? || call.CallVote? || call.CallTimeout?
    ensures Moves(s.book, Invoke(s, env, call).value.book, id)
  {
    match call
    case CallDispute(caller, other) =>
      DisputeEffect(s, env, caller, other);
      MovedMoves(s.book, other, Status.Disputed, id);
    case CallResolve(caller, other, outcome) =>
      ResolveEffect(s, env, caller, other, outcome);
      MovedMoves(s.book, other, outcome, id);
    case CallVote(attestor, other, outcome) =>
      CastVoteEffect(s, env, attestor, other, outcome);
      MovedMoves(s.book, other, outcome, id);
    case CallTimeout(other) => TimeoutEffect(s, env, other); MovedMoves(s.book, other, Status.Breached, id);
  }

  /** In a reachable state every call moves every commitment along the lifecycle, or not at all. */
  lemma StepMoves(s: State, env: Env, call: Call, id: u64)
    requires M.MilestonesSound(s.book) && id in s.book.commitments
    ensures Moves(s.book, Step(s, env, call).book, id)
  {
    UnchangedMoves(s.book, id);
    if !TouchesBook(call) {
      OtherCallsKeepBook(s, env, call);
    } else if Invoke(s, env, call).Ok? {
      if call.CallCreate? {
        CreateMoves(s, env, call.params, call.milestoneCount, id);
      } else if call.CallCreateBatch? {
        BatchMoves(s, env, call.batch, id);
      } else if call.CallAttest? {
        AttestMoves(s, env, call.caller, call.id, call.index, call.outcome, id);
      } else {
        DisputeMoves(s, env, call, id);
      }
    }
  }

  predicate PastDispute(c: Commitment) {
    c.status == Status.Disputed || Settled(c)
  }

  lemma MovesKeepPastDispute(b: Book, t: Book, id: u64)
    requires id in b.commitments && PastDispute(b.commitments[id]) && Moves(b, t, id)
    ensures PastDispute(t.commitments[id])
    ensures Settled(b.commitments[id]) ==> t.commitments[id] == b.commitments[id]
  {
  }

  /** Once disputed, a commitment stays disputed or settled; once settled, it never changes again. */
  lemma {:induction false} PastDisputeForever(s: State, script: Script, id: u64)
    requires M.MilestonesSound(s.book) && id in s.book.commitments && PastDispute(s.book.commitments[id])
    ensures M.MilestonesSound(RunFrom(s, script).book)
    ensures var b := RunFrom(s, script).book;
            && id in b.commitments && PastDispute(b.commitments[id])
            && (Settled(s.book.commitments[id]) ==> b.commitments[id] == s.book.commitments[id])
  {
    if script != [] {
      var front, last := script[..|script| - 1], script[|script| - 1];
      var t := RunFrom(s, front);
      PastDisputeForever(s, front, id);
      StepMoves(t, last.0, last.1, id);
      MovesKeepPastDispute(t.book, Step(t, last.0, last.1).book, id);
      M.StepKeepsMilestones(t, last.0, last.1);
    }
  }

  /**
   A dispute that succeeds after any run finds no escrow to overwrite, and no later dispute
   of the same commitment succeeds, however the run goes on.
   */
  lemma DisputedAtMostOnce(script: Script, env: Env, caller: Address, id: u64, after: Script,
                           env2: Env, caller2: Address)
    requires Dispute(Run(script), env, caller, id).Ok?
    ensures id !in Run(script).vault.escrows
    ensures Dispute(RunFrom(Dispute(Run(script), env, caller, id).value, after), env2, caller2, id).Err?
  {
    var s := Run(script);
    VaultSoundInEveryRun(script);
    DisputeKeepsVault(s, env, caller, id);
    DisputeLeavesPast(s, env, caller, id);
    var t := Dispute(s, env, caller, id).value;
    PastDisputeForever(t, after, id);
    CannotDisputeAgain(RunFrom(t, after), env2, caller2, id);
  }

  lemma DisputeLeavesPast(s: State, env: Env, caller: Address, id: u64)
    requires M.MilestonesSound(s.book) && Dispute(s, env, caller, id).Ok?
    ensures var b := Dispute(s, env, caller, id).value.book;
            M.MilestonesSound(b) && id in b.commitments && PastDispute(b.commitments[id])
  {
    DisputeEffect(s, env, caller, id);
    M.MovedKeeps(s.book, id, Status.Disputed);
  }

  lemma CannotDisputeAgain(s: State, env: Env, caller: Address, id: u64)
    requires id in s.book.commitments && PastDispute(s.book.commitments[id])
    ensures Dispute(s, env, caller, id).Err?
  {
  }

  // ------------------------------------------------------- the panel's escrow

  /** Only a resolver or committee settlement, of a commitment without a panel, pays an escrow out. */
  lemma EscrowLeavesOnlyByResolution(s: State, env: Env, call: Call, id: u64)
    requires id in s.vault.escrows && id !in Step(s, env, call).vault.escrows
    ensures call.CallResolve? && call.id == id && id in s.book.commitments && s.book.commitments[id].attestors == []
  {
    if !TouchesBook(call) {
      OtherCallsKeepBook(s, env, call);
    } else {
      match call
      case CallCreate(params, milestoneCount) =>
      case CallCreateBatch(batch) => CreateAllKeepsEscrows(s, env, batch);
      case CallAttest(caller, other, index, outcome) =>
      case CallDispute(caller, other) => DisputeEffect(s, env, caller, other);
      case CallResolve(caller, other, outcome) =>
        ResolveEffect(s, env, caller, other, outcome);
        ResolvedEscrows(s, env, caller, other, outcome);
      case CallVote(attestor, other, outcome) => CastVoteEffect(s, env, attestor, other, outcome);
      case CallTimeout(other) => TimeoutEffect(s, env, other);
    }
  }

  lemma {:induction false} CreateAllKeepsEscrows(s: State, env: Env, ps: seq<CommitmentParams>)
    ensures CreateAll(s, env, ps).Ok? ==> CreateAll(s, env, ps).value.vault == s.vault
  {
    if ps != [] { CreateAllKeepsEscrows(s, env, ps[..|ps| - 1]); }
  }

  lemma ResolvedEscrows(s: State, env: Env, caller: Address, id: u64, outcome: Status)
    requires Resolve(s, env, caller, id, outcome).Ok?
    ensures forall j :: j in s.vault.escrows && j != id ==>
              j in Resolve(s, env, caller, id, outcome).value.vault.escrows
  {
  }

  /** The stake escrowed for a panel dispute is never paid out, whatever is called afterwards. */
  lemma {:induction false} PanelEscrowIsNeverPaid(s: State, script: Script, id: u64)
    requires VaultSound(s) && M.MilestonesSound(s.book)
    requires id in s.vault.escrows && id in s.book.commitments && s.book.commitments[id].attestors != []
    ensures var t := RunFrom(s, script);
            && VaultSound(t) && M.MilestonesSound(t.book)
            && id in t.vault.escrows && id in t.book.commitments && t.book.commitments[id].attestors != []
  {
    if script != [] {
      var front, last := script[..|script| - 1], script[|script| - 1];
      PanelEscrowIsNeverPaid(s, front, id);
      var t := RunFrom(s, front);
      if id !in Step(t, last.0, last.1).vault.escrows { EscrowLeavesOnlyByResolution(t, last.0, last.1, id); }
      StepMoves(t, last.0, last.1, id);
      StepKeepsVault(t, last.0, last.1);
      M.StepKeepsMilestones(t, last.0, last.1);
    }
  }
}
